/** Draining the transfers of a device that is gone (io.c: usbi_handle_disconnect).

The loop completes the device's first flying transfer until there is none. What a completion callback
submits depends on the transfer; it may put transfers of the same device back in flight. It is called each
time, since the timer can be set (Context.CompleteTransfer), and submits what is not in flight.
*/
module Disconnect {
  import opened IntrusiveList
  import opened FlyingList

  // ---------------------------------------------------------------- the transfers of one device

  /** The transfers of device `h`, or those of all others. */
  function Part(list: seq<Transfer>, h: nat, ours: bool): seq<Transfer> {
    if list == [] then []
    else if (list[0].handle == h) == ours then [list[0]] + Part(list[1..], h, ours)
    else Part(list[1..], h, ours)
  }

  function Ours(list: seq<Transfer>, h: nat): seq<Transfer> { Part(list, h, true) }
  function Others(list: seq<Transfer>, h: nat): seq<Transfer> { Part(list, h, false) }

  function FirstOf(list: seq<Transfer>, h: nat): (i: nat)
    ensures i <= |list| && (i < |list| ==> list[i].handle == h)
    ensures forall k | 0 <= k < i :: list[k].handle != h
    ensures i == |list| <==> Ours(list, h) == []
  {
    if list == [] || list[0].handle == h then 0 else 1 + FirstOf(list[1..], h)
  }

  lemma {:induction false} AllOthers(list: seq<Transfer>, h: nat)
    requires Ours(list, h) == []
    ensures Others(list, h) == list
  {
    if list != [] { AllOthers(list[1..], h); }
  }

  lemma {:induction false} PartConsists(list: seq<Transfer>, h: nat, ours: bool)
    ensures forall x | x in Part(list, h, ours) :: x in list && (x.handle == h) == ours
  {
    if list != [] { PartConsists(list[1..], h, ours); }
  }

  lemma PartCons(x: Transfer, list: seq<Transfer>, h: nat, ours: bool)
    ensures Part([x] + list, h, ours)
      == if (x.handle == h) == ours then [x] + Part(list, h, ours) else Part(list, h, ours)
  {
    assert ([x] + list)[1..] == list;
  }

  lemma {:induction false} PartAppend(a: seq<Transfer>, b: seq<Transfer>, h: nat, ours: bool)
    ensures Part(a + b, h, ours) == Part(a, h, ours) + Part(b, h, ours)
  {
    if a == [] {
      assert a + b == b;
    } else {
      assert a + b == [a[0]] + (a[1..] + b);
      PartCons(a[0], a[1..] + b, h, ours);
      PartAppend(a[1..], b, h, ours);
    }
  }

  /** Adding a transfer, as seen without the ones of this device. */
  lemma {:induction false} AddOther(list: seq<Transfer>, x: Transfer, h: nat)
    requires Sorted(list)
    ensures Others(AddSorted(list, x), h) == if x.handle == h then Others(list, h) else AddSorted(Others(list, h), x)
    ensures x.handle != h ==> Ours(AddSorted(list, x), h) == Ours(list, h)
  {
    if list == [] {
      assert AddSorted(list, x) == [x];
    } else {
      var y, rest := list[0], list[1..];
      assert list == [y] + rest;
      AddSortedCons(y, rest, x);
      if Before(y.timeout, x.timeout) {
        AddOther(rest, x, h);
        PartCons(y, AddSorted(rest, x), h, true);
        PartCons(y, AddSorted(rest, x), h, false);
        AddSortedCons(y, Others(rest, h), x);
      } else {
        PartCons(x, list, h, true);
        PartCons(x, list, h, false);
        AddInFront(list, x, h);
      }
    }
  }

  lemma AddInFront(list: seq<Transfer>, x: Transfer, h: nat)
    requires Sorted(list) && list != [] && !Before(list[0].timeout, x.timeout)
    ensures AddSorted(Others(list, h), x) == [x] + Others(list, h)
  {
    PartConsists(list, h, false);
    if Others(list, h) != [] {
      var first := Others(list, h)[0];
      assert first in list;
      var j :| 0 <= j < |list| && list[j] == first;
      assert Position(list, x.timeout) == 0;
      BehindPosition(list, x.timeout, j);
    }
  }

  lemma {:induction false} RemoveOurs(list: seq<Transfer>, h: nat)
    requires Ours(list, h) != []
    ensures var i := FirstOf(list, h);
      Ours(list, h) == [list[i]] + Ours(Remove(list, i), h) && Others(Remove(list, i), h) == Others(list, h)
  {
    var i := FirstOf(list, h);
    if list[0].handle == h {
      assert Remove(list, 0) == list[1..];
    } else {
      RemoveOurs(list[1..], h);
      assert Remove(list, i) == [list[0]] + Remove(list[1..], i - 1);
      PartCons(list[0], Remove(list[1..], i - 1), h, true);
      PartCons(list[0], Remove(list[1..], i - 1), h, false);
    }
  }

  // ---------------------------------------------------------------- one round

  /** What a completion callback submits, as far as the backend accepts it, with its deadlines set. */
  type Callback = Transfer -> seq<Transfer>

  /** A submission clears the flags of the transfer (io.c:1255); the timer can be set to its deadline. */
  predicate Proper(xs: seq<Transfer>) {
    forall k | 0 <= k < |xs| :: !xs[k].timedOut && Settable(xs[k].timeout)
  }

  ghost predicate AllProper(callback: Callback) {
    forall x :: Proper(callback(x))
  }

  /** Each of `xs` is in flight neither before nor because of the others. */
  predicate AllFresh(list: seq<Transfer>, xs: seq<Transfer>)
    decreases |xs|
  {
    xs != [] ==> Fresh(list, xs[0]) && AllFresh(AddSorted(list, xs[0]), xs[1..])
  }

  function SubmitAll(s: State, xs: seq<Transfer>): State
    decreases |xs|
  {
    if xs == [] then s else SubmitAll(Submit(s, xs[0], true), xs[1..])
  }

  function AddAll(list: seq<Transfer>, xs: seq<Transfer>): seq<Transfer>
    decreases |xs|
  {
    if xs == [] then list else AddAll(AddSorted(list, xs[0]), xs[1..])
  }

  lemma {:induction false} SubmitAllOthers(s: State, xs: seq<Transfer>, h: nat)
    requires Valid(s) && Proper(xs) && AllFresh(s.flying, xs)
    ensures var s' := SubmitAll(s, xs);
      && Valid(s') && (AllSettable(s.flying) ==> AllSettable(s'.flying))
      && Others(s'.flying, h) == AddAll(Others(s.flying, h), Others(xs, h))
      && (Ours(xs, h) == [] ==> Ours(s'.flying, h) == Ours(s.flying, h))
    decreases |xs|
  {
    if xs != [] {
      AddOther(s.flying, xs[0], h);
      SubmitValid(s, xs[0], true);
      AddKeepsSettable(s.flying, xs[0]);
      SubmitAllOthers(Submit(s, xs[0], true), xs[1..], h);
      if xs[0].handle != h { assert Others(xs, h)[1..] == Others(xs[1..], h); }
    }
  }

  lemma AddKeepsSettable(list: seq<Transfer>, x: Transfer)
    ensures AllSettable(list) && Settable(x.timeout) ==> AllSettable(AddSorted(list, x))
  {
  }

  /** One round of usbi_handle_disconnect. */
  function Drain(s: State, h: nat, callback: Callback): State
    requires Ours(s.flying, h) != []
  {
    var i := FirstOf(s.flying, h);
    SubmitAll(Complete(s, i), callback(s.flying[i]))
  }

  /** What the callback of the next round submits is not in flight. */
  predicate RoundFresh(s: State, h: nat, callback: Callback) {
    Ours(s.flying, h) != [] ==>
      var i := FirstOf(s.flying, h); AllFresh(Remove(s.flying, i), callback(s.flying[i]))
  }

  /** No callback ever submits a transfer that is in flight. */
  ghost predicate NeverInFlight(s: State, h: nat, callback: Callback) {
    forall n: nat :: RoundFresh(DrainFor(s, h, callback, n), h, callback)
  }

  lemma NeverInFlightLater(s: State, h: nat, callback: Callback)
    requires NeverInFlight(s, h, callback) && Ours(s.flying, h) != []
    ensures RoundFresh(s, h, callback) && NeverInFlight(Drain(s, h, callback), h, callback)
  {
    assert DrainFor(s, h, callback, 0) == s;
    forall n: nat ensures RoundFresh(DrainFor(Drain(s, h, callback), h, callback, n), h, callback) {
      assert DrainFor(s, h, callback, n + 1) == DrainFor(Drain(s, h, callback), h, callback, n);
    }
  }

  lemma DrainOne(s: State, h: nat, callback: Callback)
    requires Valid(s) && AllSettable(s.flying) && AllProper(callback)
    requires Ours(s.flying, h) != [] && RoundFresh(s, h, callback)
    ensures CanArm(Complete(s, FirstOf(s.flying, h)).flying)
    ensures var x := s.flying[FirstOf(s.flying, h)]; var s' := Drain(s, h, callback);
      && Valid(s') && AllSettable(s'.flying)
      && Others(s'.flying, h) == AddAll(Others(s.flying, h), Others(callback(x), h))
      && (Ours(callback(x), h) == [] ==> Ours(s.flying, h) == [x] + Ours(s'.flying, h))
  {
    var i := FirstOf(s.flying, h);
    RemoveOurs(s.flying, h);
    CompleteValid(s, i);
    assert Proper(callback(s.flying[i]));
    SettableCanArm(Remove(s.flying, i));
    SubmitAllOthers(Complete(s, i), callback(s.flying[i]), h);
  }

  /** The state after `rounds` rounds, or fewer if the device has no transfers left before. */
  function DrainFor(s: State, h: nat, callback: Callback, rounds: nat): State
    decreases rounds
  {
    if rounds == 0 || Ours(s.flying, h) == [] then s else DrainFor(Drain(s, h, callback), h, callback, rounds - 1)
  }

  // ---------------------------------------------------------------- generations

  /** The device's transfers that the callbacks of `xs` put in flight. */
  function Children(xs: seq<Transfer>, callback: Callback, h: nat): seq<Transfer> {
    if xs == [] then [] else Ours(callback(xs[0]), h) + Children(xs[1..], callback, h)
  }

  /** What the callbacks of `xs` put in flight, and the callbacks of those, `n` times over. */
  function Generation(xs: seq<Transfer>, callback: Callback, h: nat, n: nat): seq<Transfer>
    decreases n
  {
    if n == 0 then xs else Generation(Children(xs, callback, h), callback, h, n - 1)
  }

  /** All of the first `n` generations together. */
  function Generations(xs: seq<Transfer>, callback: Callback, h: nat, n: nat): multiset<Transfer>
    decreases n
  {
    if n == 0 then multiset{} else multiset(xs) + Generations(Children(xs, callback, h), callback, h, n - 1)
  }

  /** The callbacks stop putting the device's transfers back. */
  ghost predicate DiesOut(xs: seq<Transfer>, callback: Callback, h: nat) {
    exists d: nat :: Generation(xs, callback, h, d) == []
  }

  // The same, seen from each single transfer, so that it does not matter where in the list it stands.

  predicate Dies(x: Transfer, callback: Callback, h: nat, d: nat)
    decreases d, 0
  {
    d > 0 && AllDie(callback(x), callback, h, d - 1)
  }

  predicate AllDie(list: seq<Transfer>, callback: Callback, h: nat, d: nat)
    decreases d, 1
  {
    forall k | 0 <= k < |list| && list[k].handle == h :: Dies(list[k], callback, h, d)
  }

  /** A transfer with all that its completion leads to within `d` generations. */
  function Kin(x: Transfer, callback: Callback, h: nat, d: nat): multiset<Transfer>
    decreases d, 0
  {
    if d == 0 then multiset{} else multiset{x} + AllKin(callback(x), callback, h, d - 1)
  }

  function AllKin(list: seq<Transfer>, callback: Callback, h: nat, d: nat): multiset<Transfer>
    decreases d, |list|
  {
    if list == [] then multiset{}
    else (if list[0].handle == h then Kin(list[0], callback, h, d) else multiset{}) + AllKin(list[1..], callback, h, d)
  }

  lemma {:induction false} AllKinAppend(a: seq<Transfer>, b: seq<Transfer>, callback: Callback, h: nat, d: nat)
    ensures AllKin(a + b, callback, h, d) == AllKin(a, callback, h, d) + AllKin(b, callback, h, d)
    decreases |a|
  {
    if a == [] {
      assert a + b == b;
    } else {
      assert (a + b)[1..] == a[1..] + b;
      AllKinAppend(a[1..], b, callback, h, d);
    }
  }

  lemma AllKinOne(x: Transfer, callback: Callback, h: nat, d: nat)
    ensures AllKin([x], callback, h, d) == if x.handle == h then Kin(x, callback, h, d) else multiset{}
  {
    assert [x][1..] == [];
  }

  lemma {:induction false} AllKinInsert(list: seq<Transfer>, p: nat, x: Transfer, callback: Callback, h: nat, d: nat)
    requires p <= |list|
    ensures AllKin(Insert(list, p, x), callback, h, d) == AllKin(list, callback, h, d) + AllKin([x], callback, h, d)
    decreases p
  {
    if p == 0 {
      assert Insert(list, p, x) == [x] + list;
      AllKinAppend([x], list, callback, h, d);
    } else {
      assert Insert(list, p, x)[1..] == Insert(list[1..], p - 1, x);
      AllKinInsert(list[1..], p - 1, x, callback, h, d);
    }
  }

  lemma {:induction false} AllKinSubmit(s: State, xs: seq<Transfer>, callback: Callback, h: nat, d: nat)
    ensures AllKin(SubmitAll(s, xs).flying, callback, h, d)
      == AllKin(s.flying, callback, h, d) + AllKin(xs, callback, h, d)
    decreases |xs|
  {
    if xs != [] {
      AllKinInsert(s.flying, Position(s.flying, xs[0].timeout), xs[0], callback, h, d);
      AllKinOne(xs[0], callback, h, d);
      AllKinSubmit(Submit(s, xs[0], true), xs[1..], callback, h, d);
    }
  }

  lemma {:induction false} SubmitMembers(s: State, xs: seq<Transfer>)
    ensures forall x :: x in SubmitAll(s, xs).flying <==> x in s.flying || x in xs
    decreases |xs|
  {
    if xs != [] {
      var list, p := s.flying, Position(s.flying, xs[0].timeout);
      assert list == list[..p] + list[p..];
      assert forall x :: x in Insert(list, p, xs[0]) <==> x in list[..p] || x == xs[0] || x in list[p..];
      SubmitMembers(Submit(s, xs[0], true), xs[1..]);
      assert xs == [xs[0]] + xs[1..];
    }
  }

  lemma AllDieIn(list: seq<Transfer>, callback: Callback, h: nat, d: nat)
    ensures AllDie(list, callback, h, d) <==> forall x | x in list && x.handle == h :: Dies(x, callback, h, d)
  {
  }

  /** Once the generations have died out, nothing is added by looking further. */
  lemma {:induction false} DiesStays(x: Transfer, callback: Callback, h: nat, d: nat)
    requires Dies(x, callback, h, d)
    ensures Dies(x, callback, h, d + 1) && Kin(x, callback, h, d + 1) == Kin(x, callback, h, d)
    decreases d, 0
  {
    AllDieStays(callback(x), callback, h, d - 1);
  }

  lemma {:induction false} AllDieStays(list: seq<Transfer>, callback: Callback, h: nat, d: nat)
    requires AllDie(list, callback, h, d)
    ensures AllDie(list, callback, h, d + 1) && AllKin(list, callback, h, d + 1) == AllKin(list, callback, h, d)
    decreases d, |list| + 1
  {
    if list != [] {
      if list[0].handle == h { DiesStays(list[0], callback, h, d); }
      AllDieStays(list[1..], callback, h, d);
      forall k | 0 <= k < |list| && list[k].handle == h ensures Dies(list[k], callback, h, d + 1) {
        if k > 0 { assert list[1..][k - 1] == list[k]; }
      }
    }
  }

  /** A round takes the completed transfer out of its kin, and nothing else. */
  lemma DrainKin(s: State, h: nat, callback: Callback, d: nat)
    requires Ours(s.flying, h) != [] && AllDie(s.flying, callback, h, d)
    ensures var x := s.flying[FirstOf(s.flying, h)]; var s' := Drain(s, h, callback);
      && AllDie(s'.flying, callback, h, d)
      && AllKin(s.flying, callback, h, d) == multiset{x} + AllKin(s'.flying, callback, h, d)
  {
    DrainDies(s, h, callback, d);
    var rest, kin, children := DrainParts(s, h, callback, d);
    TakeOut(AllKin(s.flying, callback, h, d), rest, kin, multiset{s.flying[FirstOf(s.flying, h)]}, children,
            AllKin(Drain(s, h, callback).flying, callback, h, d));
  }

  lemma DrainParts(s: State, h: nat, callback: Callback, d: nat)
    returns (rest: multiset<Transfer>, kin: multiset<Transfer>, children: multiset<Transfer>)
    requires Ours(s.flying, h) != [] && AllDie(s.flying, callback, h, d)
    ensures AllKin(s.flying, callback, h, d) == rest + kin
    ensures kin == multiset{s.flying[FirstOf(s.flying, h)]} + children
    ensures AllKin(Drain(s, h, callback).flying, callback, h, d) == rest + children
  {
    var i := FirstOf(s.flying, h);
    var x := s.flying[i];
    rest, kin := AllKin(Remove(s.flying, i), callback, h, d), Kin(x, callback, h, d);
    children := AllKin(callback(x), callback, h, d - 1);
    assert Dies(x, callback, h, d);
    AllDieStays(callback(x), callback, h, d - 1);
    KinWithout(s.flying, i, callback, h, d);
    AllKinSubmit(Complete(s, i), callback(x), callback, h, d);
  }

  lemma TakeOut<T>(all: multiset<T>, rest: multiset<T>, kin: multiset<T>, one: multiset<T>, children: multiset<T>,
                   after: multiset<T>)
    requires all == rest + kin && kin == one + children && after == rest + children
    ensures all == one + after
  {
  }

  lemma KinWithout(list: seq<Transfer>, i: nat, callback: Callback, h: nat, d: nat)
    requires i < |list| && list[i].handle == h
    ensures AllKin(list, callback, h, d) == AllKin(Remove(list, i), callback, h, d) + Kin(list[i], callback, h, d)
  {
    assert Insert(Remove(list, i), i, list[i]) == list;
    AllKinInsert(Remove(list, i), i, list[i], callback, h, d);
    AllKinOne(list[i], callback, h, d);
  }

  lemma DrainDies(s: State, h: nat, callback: Callback, d: nat)
    requires Ours(s.flying, h) != [] && AllDie(s.flying, callback, h, d)
    ensures AllDie(Drain(s, h, callback).flying, callback, h, d)
  {
    assert Dies(s.flying[FirstOf(s.flying, h)], callback, h, d);
    AllDieStays(callback(s.flying[FirstOf(s.flying, h)]), callback, h, d - 1);
    DrainMembers(s, h, callback);
    AllDieIn(s.flying, callback, h, d);
    AllDieIn(callback(s.flying[FirstOf(s.flying, h)]), callback, h, d);
    AllDieIn(Drain(s, h, callback).flying, callback, h, d);
  }

  lemma DrainMembers(s: State, h: nat, callback: Callback)
    requires Ours(s.flying, h) != []
    ensures var x := s.flying[FirstOf(s.flying, h)]; var s' := Drain(s, h, callback);
      && (forall y | y in s'.flying :: y in s.flying || y in callback(x))
      && (forall y | y in s.flying :: y == x || y in s'.flying)
      && (forall y | y in callback(x) :: y in s'.flying)
  {
    var i := FirstOf(s.flying, h);
    SubmitMembers(Complete(s, i), callback(s.flying[i]));
    assert s.flying == s.flying[..i] + ([s.flying[i]] + s.flying[i + 1..]);
  }

  // ---------------------------------------------------------------- exactly when the loop ends

  /** If the generations die out, it ends, after as many rounds as there are transfers in them. */
  lemma {:induction false} DrainsWithin(s: State, h: nat, callback: Callback, d: nat)
    requires AllDie(s.flying, callback, h, d)
    ensures Ours(DrainFor(s, h, callback, |AllKin(s.flying, callback, h, d)|).flying, h) == []
    decreases |AllKin(s.flying, callback, h, d)|
  {
    if Ours(s.flying, h) != [] {
      DrainKin(s, h, callback, d);
      DrainsWithin(Drain(s, h, callback), h, callback, d);
    }
  }

  /** If it ends after `n` rounds, no transfer has descendants in more than `n` generations. */
  lemma {:induction false} DrainedDie(s: State, h: nat, callback: Callback, n: nat)
    requires Ours(DrainFor(s, h, callback, n).flying, h) == []
    ensures AllDie(s.flying, callback, h, n)
    decreases n
  {
    if Ours(s.flying, h) == [] {
      NoneToDie(s.flying, callback, h, n);
    } else {
      assert n > 0 && DrainFor(s, h, callback, n) == DrainFor(Drain(s, h, callback), h, callback, n - 1);
      DrainedDie(Drain(s, h, callback), h, callback, n - 1);
      DiedBefore(s, h, callback, n);
    }
  }

  lemma NoneToDie(list: seq<Transfer>, callback: Callback, h: nat, n: nat)
    requires Ours(list, h) == []
    ensures AllDie(list, callback, h, n)
  {
    assert FirstOf(list, h) == |list|;
  }

  lemma DiedBefore(s: State, h: nat, callback: Callback, n: nat)
    requires Ours(s.flying, h) != [] && n > 0 && AllDie(Drain(s, h, callback).flying, callback, h, n - 1)
    ensures AllDie(s.flying, callback, h, n)
  {
    var x, rest := s.flying[FirstOf(s.flying, h)], Drain(s, h, callback).flying;
    DrainMembers(s, h, callback);
    AllDieStays(rest, callback, h, n - 1);
    AllDieIn(rest, callback, h, n - 1);
    AllDieIn(rest, callback, h, n);
    AllDieIn(callback(x), callback, h, n - 1);
    AllDieIn(s.flying, callback, h, n);
  }

  lemma AllDieAppend(a: seq<Transfer>, b: seq<Transfer>, callback: Callback, h: nat, d: nat)
    ensures AllDie(a + b, callback, h, d) <==> AllDie(a, callback, h, d) && AllDie(b, callback, h, d)
  {
    AllDieIn(a, callback, h, d);
    AllDieIn(b, callback, h, d);
    AllDieIn(a + b, callback, h, d);
  }

  lemma AllDieOne(x: Transfer, callback: Callback, h: nat, d: nat)
    requires x.handle == h
    ensures AllDie([x], callback, h, d) <==> Dies(x, callback, h, d)
  {
    AllDieIn([x], callback, h, d);
  }

  lemma {:induction false} AllDieChildren(xs: seq<Transfer>, callback: Callback, h: nat, d: nat)
    requires d > 0 && forall k | 0 <= k < |xs| :: xs[k].handle == h
    ensures AllDie(xs, callback, h, d) <==> AllDie(Children(xs, callback, h), callback, h, d - 1)
    decreases |xs|
  {
    if xs != [] {
      AllDieChildren(xs[1..], callback, h, d);
      OursDie(callback(xs[0]), callback, h, d - 1);
      AllDieAppend(Ours(callback(xs[0]), h), Children(xs[1..], callback, h), callback, h, d - 1);
      assert xs == [xs[0]] + xs[1..];
      AllDieAppend([xs[0]], xs[1..], callback, h, d);
      AllDieOne(xs[0], callback, h, d);
    }
  }

  lemma {:induction false} ChildrenAreOurs(xs: seq<Transfer>, callback: Callback, h: nat)
    ensures forall k | 0 <= k < |Children(xs, callback, h)| :: Children(xs, callback, h)[k].handle == h
  {
    if xs != [] {
      ChildrenAreOurs(xs[1..], callback, h);
      PartConsists(callback(xs[0]), h, true);
    }
  }

  lemma {:induction false} AllKinChildren(xs: seq<Transfer>, callback: Callback, h: nat, d: nat)
    requires d > 0 && forall k | 0 <= k < |xs| :: xs[k].handle == h
    ensures AllKin(xs, callback, h, d) == multiset(xs) + AllKin(Children(xs, callback, h), callback, h, d - 1)
    decreases |xs|
  {
    if xs == [] {
      assert multiset(xs) == multiset{};
    } else {
      AllKinChildren(xs[1..], callback, h, d);
      var a, b := FirstChildren(xs, callback, h, d - 1);
      TakePairs(AllKin(xs, callback, h, d), Kin(xs[0], callback, h, d), AllKin(xs[1..], callback, h, d), xs,
                a, b, AllKin(Children(xs, callback, h), callback, h, d - 1));
    }
  }

  lemma FirstChildren(xs: seq<Transfer>, callback: Callback, h: nat, d: nat)
    returns (a: multiset<Transfer>, b: multiset<Transfer>)
    requires xs != []
    ensures a == AllKin(callback(xs[0]), callback, h, d) && b == AllKin(Children(xs[1..], callback, h), callback, h, d)
    ensures AllKin(Children(xs, callback, h), callback, h, d) == a + b
  {
    a, b := AllKin(callback(xs[0]), callback, h, d), AllKin(Children(xs[1..], callback, h), callback, h, d);
    OursDie(callback(xs[0]), callback, h, d);
    AllKinAppend(Ours(callback(xs[0]), h), Children(xs[1..], callback, h), callback, h, d);
  }

  lemma TakePairs<T>(all: multiset<T>, kin: multiset<T>, rest: multiset<T>, xs: seq<T>, a: multiset<T>, b: multiset<T>,
                     children: multiset<T>)
    requires xs != [] && all == kin + rest && children == a + b
    requires kin == multiset{xs[0]} + a && rest == multiset(xs[1..]) + b
    ensures all == multiset(xs) + children
  {
    assert xs == [xs[0]] + xs[1..];
    assert multiset(xs) == multiset{xs[0]} + multiset(xs[1..]);
  }

  lemma {:induction false} OursDie(list: seq<Transfer>, callback: Callback, h: nat, d: nat)
    ensures AllDie(Ours(list, h), callback, h, d) <==> AllDie(list, callback, h, d)
    ensures AllKin(Ours(list, h), callback, h, d) == AllKin(list, callback, h, d)
  {
    if list != [] {
      OursDie(list[1..], callback, h, d);
      assert list == [list[0]] + list[1..];
      AllDieIn(list, callback, h, d);
      AllDieIn(list[1..], callback, h, d);
      AllDieIn(Ours(list, h), callback, h, d);
      AllDieIn(Ours(list[1..], h), callback, h, d);
      if list[0].handle == h { assert Ours(list, h)[1..] == Ours(list[1..], h); }
    }
  }

  lemma {:induction false} GenerationDies(xs: seq<Transfer>, callback: Callback, h: nat, d: nat)
    requires forall k | 0 <= k < |xs| :: xs[k].handle == h
    ensures Generation(xs, callback, h, d) == [] <==> AllDie(xs, callback, h, d)
    ensures Generations(xs, callback, h, d) == AllKin(xs, callback, h, d)
    decreases d
  {
    if d == 0 {
      NoGeneration(xs, callback, h);
    } else {
      AllDieChildren(xs, callback, h, d);
      AllKinChildren(xs, callback, h, d);
      ChildrenAreOurs(xs, callback, h);
      GenerationDies(Children(xs, callback, h), callback, h, d - 1);
    }
  }

  lemma NoGeneration(xs: seq<Transfer>, callback: Callback, h: nat)
    requires forall k | 0 <= k < |xs| :: xs[k].handle == h
    ensures xs == [] <==> AllDie(xs, callback, h, 0)
    ensures AllKin(xs, callback, h, 0) == multiset{}
  {
    if xs != [] { assert !Dies(xs[0], callback, h, 0); }
    NoKin(xs, callback, h);
  }

  lemma {:induction false} NoKin(xs: seq<Transfer>, callback: Callback, h: nat)
    ensures AllKin(xs, callback, h, 0) == multiset{}
  {
    if xs != [] { NoKin(xs[1..], callback, h); }
  }

  lemma OursGenerations(list: seq<Transfer>, callback: Callback, h: nat, d: nat)
    ensures Generation(Ours(list, h), callback, h, d) == [] <==> AllDie(list, callback, h, d)
    ensures Generations(Ours(list, h), callback, h, d) == AllKin(list, callback, h, d)
  {
    PartConsists(list, h, true);
    GenerationDies(Ours(list, h), callback, h, d);
    OursDie(list, callback, h, d);
  }

  /** The loop ends if and only if some generation of resubmissions is empty. */
  lemma DisconnectEndsIff(s: State, h: nat, callback: Callback)
    ensures (exists n: nat :: Ours(DrainFor(s, h, callback, n).flying, h) == [])
      <==> DiesOut(Ours(s.flying, h), callback, h)
  {
    if n: nat :| Ours(DrainFor(s, h, callback, n).flying, h) == [] {
      DrainedDie(s, h, callback, n);
      OursGenerations(s.flying, callback, h, n);
    }
    if d: nat :| Generation(Ours(s.flying, h), callback, h, d) == [] {
      OursGenerations(s.flying, callback, h, d);
      DrainsWithin(s, h, callback, d);
    }
  }

  /** So it does not if every callback of the device puts one of its transfers back. */
  lemma ResubmittingNeverEnds(s: State, h: nat, callback: Callback, rounds: nat)
    requires Ours(s.flying, h) != []
    requires forall x: Transfer | x.handle == h :: Ours(callback(x), h) != []
    ensures Ours(DrainFor(s, h, callback, rounds).flying, h) != []
  {
    DisconnectEndsIff(s, h, callback);
    forall d: nat ensures Generation(Ours(s.flying, h), callback, h, d) != [] {
      PartConsists(s.flying, h, true);
      NeverEmpty(Ours(s.flying, h), callback, h, d);
    }
  }

  /** A transfer whose callback resubmits it. */
  lemma ResubmitsItself(x: Transfer, rounds: nat)
    ensures var s := Submit(State([], None), x, true);
      Ours(DrainFor(s, x.handle, (y: Transfer) => [y], rounds).flying, x.handle) != []
  {
    var s := Submit(State([], None), x, true);
    assert s.flying == [x];
    forall y: Transfer | y.handle == x.handle ensures Ours([y], x.handle) != [] {
      assert [y][0] == y;
    }
    ResubmittingNeverEnds(s, x.handle, (y: Transfer) => [y], rounds);
  }

  lemma {:induction false} NeverEmpty(xs: seq<Transfer>, callback: Callback, h: nat, d: nat)
    requires xs != [] && forall k | 0 <= k < |xs| :: xs[k].handle == h
    requires forall x: Transfer | x.handle == h :: Ours(callback(x), h) != []
    ensures Generation(xs, callback, h, d) != []
    decreases d
  {
    if d > 0 {
      ChildrenAreOurs(xs, callback, h);
      assert Ours(callback(xs[0]), h) != [];
      NeverEmpty(Children(xs, callback, h), callback, h, d - 1);
    }
  }

  /** And it does, in one round for each transfer, if none does. */
  lemma ForOthersEnds(xs: seq<Transfer>, h: nat, callback: Callback)
    requires forall x: Transfer :: Ours(callback(x), h) == []
    ensures Generation(xs, callback, h, 1) == [] && Generations(xs, callback, h, 1) == multiset(xs)
  {
    NoChildren(xs, h, callback);
    assert Generation([], callback, h, 0) == [];
  }

  lemma {:induction false} NoChildren(xs: seq<Transfer>, h: nat, callback: Callback)
    requires forall x: Transfer :: Ours(callback(x), h) == []
    ensures Children(xs, callback, h) == []
  {
    if xs != [] { NoChildren(xs[1..], h, callback); }
  }

  // ---------------------------------------------------------------- the loop

  function Submissions(done: seq<Transfer>, callback: Callback): seq<Transfer> {
    if done == [] then [] else callback(done[0]) + Submissions(done[1..], callback)
  }

  lemma {:induction false} SubmissionsAppend(done: seq<Transfer>, x: Transfer, callback: Callback)
    ensures Submissions(done + [x], callback) == Submissions(done, callback) + callback(x)
  {
    if done == [] {
      assert [] + [x] == [x] && [x][1..] == [];
    } else {
      assert (done + [x])[1..] == done[1..] + [x];
      SubmissionsAppend(done[1..], x, callback);
    }
  }

  lemma {:induction false} AddAllAppend(list: seq<Transfer>, xs: seq<Transfer>, ys: seq<Transfer>)
    ensures AddAll(list, xs + ys) == AddAll(AddAll(list, xs), ys)
    decreases |xs|
  {
    if xs == [] {
      assert xs + ys == ys;
    } else {
      assert (xs + ys)[1..] == xs[1..] + ys;
      AddAllAppend(AddSorted(list, xs[0]), xs[1..], ys);
    }
  }

  /** From the list `list`, `done` have been completed so far and `flying` is left: what is missing of the
      kin of `list` is the kin of `flying`, */
  ghost predicate Accounted(list: seq<Transfer>, flying: seq<Transfer>, done: seq<Transfer>, h: nat,
                            callback: Callback, d: nat)
  {
    && AllDie(flying, callback, h, d)
    && multiset(done) + AllKin(flying, callback, h, d) == AllKin(list, callback, h, d)
  }

  /** and the others are where they were, with what has been submitted in between. */
  ghost predicate InOrder(list: seq<Transfer>, flying: seq<Transfer>, done: seq<Transfer>, h: nat, callback: Callback) {
    && Others(flying, h) == AddAll(Others(list, h), Others(Submissions(done, callback), h))
    && (Ours(Submissions(done, callback), h) == [] ==> done + Ours(flying, h) == Ours(list, h))
  }

  lemma AccountedOneMore(list: seq<Transfer>, s: State, done: seq<Transfer>, h: nat, callback: Callback, d: nat)
    requires Ours(s.flying, h) != [] && Accounted(list, s.flying, done, h, callback, d)
    ensures Accounted(list, Drain(s, h, callback).flying, done + [s.flying[FirstOf(s.flying, h)]], h, callback, d)
    ensures |AllKin(Drain(s, h, callback).flying, callback, h, d)| < |AllKin(s.flying, callback, h, d)|
  {
    DrainKin(s, h, callback, d);
    DoneMore(done, s.flying[FirstOf(s.flying, h)], AllKin(s.flying, callback, h, d),
             AllKin(Drain(s, h, callback).flying, callback, h, d), AllKin(list, callback, h, d));
  }

  lemma InOrderOneMore(list: seq<Transfer>, s: State, done: seq<Transfer>, h: nat, callback: Callback)
    requires Valid(s) && AllSettable(s.flying) && AllProper(callback)
    requires Ours(s.flying, h) != [] && RoundFresh(s, h, callback) && InOrder(list, s.flying, done, h, callback)
    ensures Valid(Drain(s, h, callback)) && AllSettable(Drain(s, h, callback).flying)
    ensures InOrder(list, Drain(s, h, callback).flying, done + [s.flying[FirstOf(s.flying, h)]], h, callback)
  {
    DrainOne(s, h, callback);
    InOrderStep(list, s.flying, Drain(s, h, callback).flying, s.flying[FirstOf(s.flying, h)], done, h, callback);
  }

  lemma InOrderStep(list: seq<Transfer>, flying: seq<Transfer>, flying': seq<Transfer>, x: Transfer,
                    done: seq<Transfer>, h: nat, callback: Callback)
    requires InOrder(list, flying, done, h, callback)
    requires Others(flying', h) == AddAll(Others(flying, h), Others(callback(x), h))
    requires Ours(callback(x), h) == [] ==> Ours(flying, h) == [x] + Ours(flying', h)
    ensures InOrder(list, flying', done + [x], h, callback)
  {
    SubmissionsSplit(list, done, x, h, callback);
    assert done + ([x] + Ours(flying', h)) == done + [x] + Ours(flying', h);
  }

  lemma DoneMore<T>(done: seq<T>, x: T, before: multiset<T>, after: multiset<T>, all: multiset<T>)
    requires multiset(done) + before == all && before == multiset{x} + after
    ensures multiset(done + [x]) + after == all
  {
    assert multiset(done + [x]) == multiset(done) + multiset{x};
  }

  lemma SubmissionsSplit(list: seq<Transfer>, done: seq<Transfer>, x: Transfer, h: nat, callback: Callback)
    ensures var before, after := Submissions(done, callback), Submissions(done + [x], callback);
      && Ours(after, h) == Ours(before, h) + Ours(callback(x), h)
      && AddAll(Others(list, h), Others(after, h))
        == AddAll(AddAll(Others(list, h), Others(before, h)), Others(callback(x), h))
  {
    SubmissionsAppend(done, x, callback);
    PartAppend(Submissions(done, callback), callback(x), h, true);
    PartAppend(Submissions(done, callback), callback(x), h, false);
    AddAllAppend(Others(list, h), Others(Submissions(done, callback), h), Others(callback(x), h));
  }

  /** usbi_handle_disconnect, whenever it ends: every transfer of the device, and every one that callbacks
      put back, is completed once, in list order if none is put back; the others stay, in order, with those
      that the callbacks submitted among them. */
  method HandleDisconnect(ctx: Context, h: nat, callback: Callback) returns (done: seq<Transfer>, ghost depth: nat)
    requires Valid(ctx.S()) && AllSettable(ctx.flying) && AllProper(callback) && NeverInFlight(ctx.S(), h, callback)
    requires DiesOut(Ours(ctx.flying, h), callback, h)
    modifies ctx
    ensures Valid(ctx.S()) && Ours(ctx.flying, h) == []
    ensures Generation(Ours(old(ctx.flying), h), callback, h, depth) == []
    ensures multiset(done) == Generations(Ours(old(ctx.flying), h), callback, h, depth)
    ensures Ours(Submissions(done, callback), h) == [] ==> done == Ours(old(ctx.flying), h)
    ensures ctx.flying == AddAll(Others(old(ctx.flying), h), Others(Submissions(done, callback), h))
  {
    depth :| Generation(Ours(ctx.flying, h), callback, h, depth) == [];
    OursGenerations(ctx.flying, callback, h, depth);
    done := [];
    while true
      invariant Valid(ctx.S()) && Accounted(old(ctx.flying), ctx.flying, done, h, callback, depth)
      invariant InOrder(old(ctx.flying), ctx.flying, done, h, callback)
      invariant AllSettable(ctx.flying) && NeverInFlight(ctx.S(), h, callback)
      decreases |AllKin(ctx.flying, callback, h, depth)|
    {
      var i := FindFirst(ctx, h);
      if i == |ctx.flying| {
        AllOthers(ctx.flying, h);
        NoOneLeft(ctx.flying, callback, h, depth);
        return;
      }
      var x := ctx.flying[i];
      AccountedOneMore(old(ctx.flying), ctx.S(), done, h, callback, depth);
      NeverInFlightLater(ctx.S(), h, callback);
      InOrderOneMore(old(ctx.flying), ctx.S(), done, h, callback);
      DrainOne(ctx.S(), h, callback);
      var callsBack := ctx.CompleteTransfer(i);
      if callsBack {
        assert Proper(callback(x));
        SubmitEach(ctx, callback(x));
      }
      done := done + [x];
    }
  }

  lemma {:induction false} NoOneLeft(list: seq<Transfer>, callback: Callback, h: nat, d: nat)
    requires Ours(list, h) == []
    ensures AllKin(list, callback, h, d) == multiset{}
  {
    OursDie(list, callback, h, d);
  }

  method FindFirst(ctx: Context, h: nat) returns (i: nat)
    ensures i == FirstOf(ctx.flying, h)
  {
    i := 0;
    assert ctx.flying[0..] == ctx.flying;
    while i < |ctx.flying| && ctx.flying[i].handle != h
      invariant i <= |ctx.flying| && FirstOf(ctx.flying, h) == i + FirstOf(ctx.flying[i..], h)
    {
      assert ctx.flying[i..][1..] == ctx.flying[i + 1..];
      i := i + 1;
    }
  }

  method SubmitEach(ctx: Context, xs: seq<Transfer>)
    requires Proper(xs) && AllFresh(ctx.flying, xs)
    modifies ctx
    ensures ctx.S() == SubmitAll(old(ctx.S()), xs)
  {
    assert xs[0..] == xs;
    for k := 0 to |xs|
      invariant SubmitAll(ctx.S(), xs[k..]) == SubmitAll(old(ctx.S()), xs) && AllFresh(ctx.flying, xs[k..])
    {
      assert xs[k..][1..] == xs[k + 1..];
      var r := ctx.SubmitTransfer(xs[k], 0, None, 0);
    }
  }
}
