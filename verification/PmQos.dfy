/** Quality-of-service targets, compat-wireless/compat/pm_qos_params.c: a cached extreme of the
    requirements, where changing the list and recomputing the target are separate critical sections. */
module PmQos {

  const PM_QOS_DEFAULT_VALUE := -1

  datatype Requirement = Requirement(name: string, value: int)

  /** A class keeps the minimum or the maximum of its default value and its requirements. */
  datatype Settings = Settings(min: bool, default: int)

  /** The four real classes; class 0 is reserved and has no comparison function. */
  function ClassSettings(c: nat): Settings
    requires 1 <= c <= 4
  {
    if c <= 2 then Settings(true, 2_000_000_000) else Settings(false, 0)
  }

  // ----- meaning -----

  /** `x` is at least as strict as `y`. */
  predicate Stricter(q: Settings, x: int, y: int) {
    if q.min then x <= y else x >= y
  }

  /** `x` is one of the values and no value is stricter. */
  predicate IsExtreme(q: Settings, reqs: seq<Requirement>, x: int) {
    && (x == q.default || exists i :: 0 <= i < |reqs| && reqs[i].value == x)
    && Stricter(q, x, q.default)
    && forall i :: 0 <= i < |reqs| ==> Stricter(q, x, reqs[i].value)
  }

  function Compare(q: Settings, x: int, y: int): int {
    if q.min then (if x <= y then x else y) else (if x >= y then x else y)
  }

  function Extreme(q: Settings, reqs: seq<Requirement>): int {
    if reqs == [] then q.default else Compare(q, Extreme(q, reqs[..|reqs| - 1]), reqs[|reqs| - 1].value)
  }

  lemma {:induction false} ExtremeMeans(q: Settings, reqs: seq<Requirement>)
    ensures IsExtreme(q, reqs, Extreme(q, reqs))
  {
    if reqs == [] {
    } else {
      var n := |reqs| - 1;
      ExtremeMeans(q, reqs[..n]);
      var x := Extreme(q, reqs);
      if x == reqs[n].value {
      } else if x != q.default {
        var i :| 0 <= i < n && reqs[..n][i].value == x;
        assert reqs[i].value == x;
      }
      assert forall i :: 0 <= i < n ==> reqs[..n][i] == reqs[i];
    }
  }

  /** There is only one extreme, whatever the order of the list. */
  lemma ExtremeUnique(q: Settings, reqs: seq<Requirement>, sorted: seq<Requirement>, x: int)
    requires multiset(reqs) == multiset(sorted)
    ensures IsExtreme(q, reqs, x) <==> x == Extreme(q, sorted)
  {
    ExtremeMeans(q, reqs);
    ExtremeMeans(q, sorted);
    SameValues(q, reqs, sorted, Extreme(q, reqs));
    if IsExtreme(q, reqs, x) {
      SameValues(q, reqs, sorted, x);
    }
  }

  lemma SameValues(q: Settings, a: seq<Requirement>, b: seq<Requirement>, x: int)
    requires multiset(a) == multiset(b) && IsExtreme(q, a, x)
    ensures IsExtreme(q, b, x)
  {
    forall i | 0 <= i < |b|
      ensures Stricter(q, x, b[i].value)
    {
      assert b[i] in multiset(b);
      assert b[i] in a;
    }
    if x != q.default {
      var i :| 0 <= i < |a| && a[i].value == x;
      assert a[i] in multiset(a);
      assert a[i] in b;
    }
  }

  // ----- list changes -----

  function Meant(q: Settings, value: int): int {
    if value == PM_QOS_DEFAULT_VALUE then q.default else value
  }

  predicate Named(reqs: seq<Requirement>, name: string) {
    exists i :: 0 <= i < |reqs| && reqs[i].name == name
  }

  /** The index of the first requirement of that name, or the length. */
  function Position(reqs: seq<Requirement>, name: string): (i: nat)
    ensures i <= |reqs|
    ensures forall j :: 0 <= j < i ==> reqs[j].name != name
    ensures i < |reqs| ==> reqs[i].name == name
  {
    if reqs == [] || reqs[0].name == name then 0 else 1 + Position(reqs[1..], name)
  }

  function Added(q: Settings, reqs: seq<Requirement>, name: string, value: int): seq<Requirement> {
    [Requirement(name, Meant(q, value))] + reqs
  }

  function Updated(q: Settings, reqs: seq<Requirement>, name: string, value: int): seq<Requirement> {
    var i := Position(reqs, name);
    if i == |reqs| then reqs else reqs[i := Requirement(name, Meant(q, value))]
  }

  function Removed(reqs: seq<Requirement>, name: string): seq<Requirement> {
    var i := Position(reqs, name);
    if i == |reqs| then reqs else reqs[..i] + reqs[i + 1..]
  }

  /** An update stores the value, or the default for it, in the first requirement of that name, and changes
      no other requirement. */
  lemma UpdateStores(q: Settings, reqs: seq<Requirement>, name: string, value: int)
    ensures var after := Updated(q, reqs, name, value);
            && |after| == |reqs| && (!Named(reqs, name) ==> after == reqs)
            && (Named(reqs, name) ==> exists i :: 0 <= i < |reqs| && Stores(q, reqs, i, name, value, after))
  {
    var i := Position(reqs, name);
    if Named(reqs, name) {
      assert Stores(q, reqs, i, name, value, Updated(q, reqs, name, value));
    }
  }

  /** Entry `i` is the first of that name and gets the value; all other entries stay. */
  predicate Stores(q: Settings, reqs: seq<Requirement>, i: nat, name: string, value: int, after: seq<Requirement>)
    requires i < |reqs| == |after|
  {
    && reqs[i].name == after[i].name == name && (forall j :: 0 <= j < i ==> reqs[j].name != name)
    && (value == PM_QOS_DEFAULT_VALUE ==> after[i].value == q.default)
    && (value != PM_QOS_DEFAULT_VALUE ==> after[i].value == value)
    && forall j :: 0 <= j < |reqs| && j != i ==> after[j] == reqs[j]
  }

  /** An addition stores its value the same way, and leaves the others alone. */
  lemma AddStores(q: Settings, reqs: seq<Requirement>, name: string, value: int)
    ensures var after := Added(q, reqs, name, value);
            && |after| == |reqs| + 1 && after[0].name == name && after[1..] == reqs
            && (value == PM_QOS_DEFAULT_VALUE ==> after[0].value == q.default)
            && (value != PM_QOS_DEFAULT_VALUE ==> after[0].value == value)
  {}

  /** A removal takes out the first requirement of that name and nothing else. */
  lemma RemoveTakes(reqs: seq<Requirement>, name: string)
    ensures !Named(reqs, name) ==> Removed(reqs, name) == reqs
    ensures Named(reqs, name) ==>
              exists i :: 0 <= i < |reqs| && reqs[i].name == name && (forall j :: 0 <= j < i ==> reqs[j].name != name)
                          && Removed(reqs, name) == reqs[..i] + reqs[i + 1..]
  {
    var i := Position(reqs, name);
    if Named(reqs, name) {
      assert i < |reqs|;
    }
  }

  /** Removing what was just added gives the old list, and so the old target. */
  lemma RemoveUndoesAdd(q: Settings, reqs: seq<Requirement>, name: string, value: int)
    ensures Removed(Added(q, reqs, name, value), name) == reqs
  {}

  // ----- one class -----

  class Object {
    const q: Settings
    var requirements: seq<Requirement>
    var target: int
    var notified: seq<int>

    constructor (c: nat)
      requires 1 <= c <= 4
      ensures q == ClassSettings(c) && requirements == [] && notified == [] && Settled()
    {
      q := ClassSettings(c);
      requirements, target, notified := [], ClassSettings(c).default, [];
    }

    /** The target is the extreme. */
    predicate Settled()
      reads this
    {
      IsExtreme(q, requirements, target)
    }

    /** The critical section of `update_target`. */
    method Recompute() returns (call: bool)
      modifies this`target
      ensures Settled() && target == Extreme(q, requirements)
      ensures call <==> target != old(target)
    {
      var extreme := q.default;
      var i := 0;
      while i < |requirements|
        invariant i <= |requirements| && extreme == Extreme(q, requirements[..i])
      {
        assert requirements[..i + 1][..i] == requirements[..i];
        extreme := Compare(q, extreme, requirements[i].value);
        i := i + 1;
      }
      assert requirements[..i] == requirements;
      ExtremeMeans(q, requirements);
      call := false;
      if target != extreme {
        call, target := true, extreme;
      }
    }

    /** `update_target`: a notification if and only if the target changed. */
    method UpdateTarget()
      modifies this`target, this`notified
      ensures Settled() && target == Extreme(q, requirements)
      ensures notified == old(notified) + if target == old(target) then [] else [target]
    {
      var call := Recompute();
      if call {
        notified := notified + [target];
      }
    }

    /** `pm_qos_add_requirement`; `mem` says whether both allocations succeed. */
    method AddRequirement(name: string, value: int, mem: bool) returns (ok: bool)
      modifies this
      ensures ok == mem
      ensures !ok ==> requirements == old(requirements) && target == old(target) && notified == old(notified)
      ensures ok ==> requirements == Added(q, old(requirements), name, value) && Settled()
      ensures notified == old(notified) + if target == old(target) then [] else [target]
    {
      if !mem {
        return false;
      }
      var v := value;
      if value == PM_QOS_DEFAULT_VALUE {
        v := q.default;
      }
      requirements := [Requirement(name, v)] + requirements;
      UpdateTarget();
      return true;
    }

    method Find(name: string) returns (i: nat)
      ensures i == Position(requirements, name)
    {
      i := 0;
      while i < |requirements| && requirements[i].name != name
        invariant i <= |requirements| && Position(requirements, name) == i + Position(requirements[i..], name)
      {
        assert requirements[i..][1..] == requirements[i + 1..];
        i := i + 1;
      }
    }

    /** `pm_qos_update_requirement` */
    method UpdateRequirement(name: string, value: int)
      modifies this
      ensures requirements == Updated(q, old(requirements), name, value)
      ensures old(Settled()) || Named(old(requirements), name) ==> Settled()
      ensures !Named(old(requirements), name) ==> target == old(target)
      ensures notified == old(notified) + if target == old(target) then [] else [target]
    {
      var i := Find(name);
      if i < |requirements| {
        var v := value;
        if value == PM_QOS_DEFAULT_VALUE {
          v := q.default;
        }
        requirements := requirements[i := requirements[i].(value := v)];
        UpdateTarget();
      }
    }

    /** `pm_qos_remove_requirement` */
    method RemoveRequirement(name: string)
      modifies this
      ensures requirements == Removed(old(requirements), name)
      ensures old(Settled()) || Named(old(requirements), name) ==> Settled()
      ensures !Named(old(requirements), name) ==> target == old(target)
      ensures notified == old(notified) + if target == old(target) then [] else [target]
    {
      var i := Find(name);
      if i < |requirements| {
        requirements := requirements[..i] + requirements[i + 1..];
        UpdateTarget();
      }
    }
  }

  // ----- many callers -----

  /** The class between critical sections: `pending` callers have changed the list and have yet to
      enter `update_target`, and the callers that changed the target have yet to notify. */
  datatype State = State(reqs: seq<Requirement>, target: int, pending: nat,
                         changes: seq<int>, toNotify: seq<int>, issued: seq<int>)

  datatype Action =
    | Add(name: string, value: int)
    | Update(name: string, value: int)
    | Remove(name: string)
    | Recompute
    | Notify(which: nat)

  function Step(q: Settings, s: State, a: Action): State {
    match a
    case Add(name, value) => s.(reqs := Added(q, s.reqs, name, value), pending := s.pending + 1)
    case Update(name, value) =>
      if Position(s.reqs, name) == |s.reqs| then s
      else s.(reqs := Updated(q, s.reqs, name, value), pending := s.pending + 1)
    case Remove(name) =>
      if Position(s.reqs, name) == |s.reqs| then s
      else s.(reqs := Removed(s.reqs, name), pending := s.pending + 1)
    case Recompute =>
      var x := Extreme(q, s.reqs);
      if s.pending == 0 then s
      else if x == s.target then s.(pending := s.pending - 1)
      else s.(pending := s.pending - 1, target := x, changes := s.changes + [x], toNotify := s.toNotify + [x])
    case Notify(i) =>
      if i >= |s.toNotify| then s
      else s.(toNotify := s.toNotify[..i] + s.toNotify[i + 1..], issued := s.issued + [s.toNotify[i]])
  }

  function Exec(q: Settings, acts: seq<Action>): State {
    if acts == [] then State([], q.default, 0, [], [], [])
    else Step(q, Exec(q, acts[..|acts| - 1]), acts[|acts| - 1])
  }

  /** The target before change `i`. */
  function Before(q: Settings, changes: seq<int>, i: nat): int
    requires i <= |changes|
  {
    if i == 0 then q.default else changes[i - 1]
  }

  ghost predicate Inv(q: Settings, s: State) {
    && (s.pending == 0 ==> IsExtreme(q, s.reqs, s.target))
    && s.target == Before(q, s.changes, |s.changes|)
    && RealChanges(q, s.changes)
    && multiset(s.issued) + multiset(s.toNotify) == multiset(s.changes)
  }

  /** What the critical sections do. */
  lemma StepTakesEffect(q: Settings, s: State, name: string, value: int, i: nat)
    ensures var t := Step(q, s, Add(name, value));
            t == s.(reqs := t.reqs, pending := s.pending + 1) && |t.reqs| == |s.reqs| + 1 && t.reqs[0].name == name
            && t.reqs[1..] == s.reqs
    ensures Named(s.reqs, name) ==>
              var t := Step(q, s, Update(name, value));
              t == s.(reqs := t.reqs, pending := s.pending + 1) && |t.reqs| == |s.reqs|
              && exists j :: 0 <= j < |s.reqs| && Stores(q, s.reqs, j, name, value, t.reqs)
    ensures Named(s.reqs, name) ==>
              var t := Step(q, s, Remove(name));
              t == s.(reqs := t.reqs, pending := s.pending + 1) && |t.reqs| == |s.reqs| - 1
    ensures s.pending > 0 ==>
              var t := Step(q, s, Recompute);
              && t.pending == s.pending - 1 && t.reqs == s.reqs && IsExtreme(q, t.reqs, t.target) && t.issued == s.issued
              && t.changes == s.changes + (if t.target == s.target then [] else [t.target])
    ensures i < |s.toNotify| ==>
              var t := Step(q, s, Notify(i));
              t == s.(toNotify := t.toNotify, issued := s.issued + [s.toNotify[i]]) && |t.toNotify| == |s.toNotify| - 1
  {
    UpdateStores(q, s.reqs, name, value);
    ExtremeMeans(q, s.reqs);
    if Named(s.reqs, name) {
      assert Position(s.reqs, name) < |s.reqs|;
    }
  }

  lemma TakeOne(s: seq<int>, i: nat)
    requires i < |s|
    ensures multiset(s) == multiset(s[..i] + s[i + 1..]) + multiset{s[i]}
  {
    assert s == s[..i] + [s[i]] + s[i + 1..];
  }

  /** Every recorded change differs from the target before it. */
  ghost predicate RealChanges(q: Settings, changes: seq<int>) {
    forall i :: 0 <= i < |changes| ==> changes[i] != Before(q, changes, i)
  }

  lemma ChangesExtend(q: Settings, changes: seq<int>, x: int)
    requires RealChanges(q, changes) && x != Before(q, changes, |changes|)
    ensures RealChanges(q, changes + [x])
  {}

  lemma RecomputeKeeps(q: Settings, s: State)
    requires Inv(q, s)
    ensures Inv(q, Step(q, s, Recompute))
  {
    hide Extreme, IsExtreme, RealChanges;
    ExtremeMeans(q, s.reqs);
    var x := Extreme(q, s.reqs);
    if s.pending > 0 && x != s.target {
      ChangesExtend(q, s.changes, x);
    }
  }

  lemma NotifyKeeps(q: Settings, s: State, i: nat)
    requires Inv(q, s)
    ensures Inv(q, Step(q, s, Notify(i)))
  {
    hide Extreme, IsExtreme, RealChanges, Before;
    if i < |s.toNotify| {
      TakeOne(s.toNotify, i);
    }
  }

  lemma StepKeeps(q: Settings, s: State, a: Action)
    requires Inv(q, s)
    ensures Inv(q, Step(q, s, a))
  {
    hide Extreme, IsExtreme, RealChanges, Before, Added, Updated, Removed;
    match a
    case Recompute => RecomputeKeeps(q, s);
    case Notify(i) => NotifyKeeps(q, s, i);
    case _ =>
  }

  /** In every reachable state: the target is the extreme or a recomputation is still to come; the
      changes of the target are real ones and end in the target; and each change has been notified
      once or is about to be. */
  lemma {:induction false} EveryRun(q: Settings, acts: seq<Action>)
    ensures Inv(q, Exec(q, acts))
  {
    if acts == [] {
    } else {
      EveryRun(q, acts[..|acts| - 1]);
      StepKeeps(q, Exec(q, acts[..|acts| - 1]), acts[|acts| - 1]);
    }
  }

  /** Notifications are sent outside the lock, so they can overtake each other: with nothing left to
      do, the last value notified need not be the target. */
  lemma NotificationsOvertake()
    ensures exists acts ::
              var s := Exec(ClassSettings(1), acts);
              s.pending == 0 && s.toNotify == [] && s.issued != [] && s.issued[|s.issued| - 1] != s.target
  {
    hide Exec;
    var q := ClassSettings(1);
    var ra, rb := Requirement("a", 7), Requirement("b", 5);
    ExecNone(q);
    ExecNext(q, [], Add("a", 7));
    assert Extreme(q, [ra]) == 7;
    var a1 := [] + [Add("a", 7)];
    ExecNext(q, a1, Recompute);
    var a2 := a1 + [Recompute];
    ExecNext(q, a2, Add("b", 5));
    var a3 := a2 + [Add("b", 5)];
    assert Extreme(q, [rb, ra]) == 5 by { assert [rb, ra][..1] == [rb]; }
    ExecNext(q, a3, Recompute);
    var a4 := a3 + [Recompute];
    assert Exec(q, a4) == State([rb, ra], 5, 0, [7, 5], [7, 5], []);
    ExecNext(q, a4, Notify(1));
    var a5 := a4 + [Notify(1)];
    assert Exec(q, a5) == State([rb, ra], 5, 0, [7, 5], [7], [5]);
    ExecNext(q, a5, Notify(0));
    assert Exec(q, a5 + [Notify(0)]) == State([rb, ra], 5, 0, [7, 5], [], [5, 7]);
  }

  lemma ExecNext(q: Settings, acts: seq<Action>, a: Action)
    ensures Exec(q, acts + [a]) == Step(q, Exec(q, acts), a)
  {
    assert (acts + [a])[..|acts|] == acts;
  }

  lemma ExecNone(q: Settings)
    ensures Exec(q, []) == State([], q.default, 0, [], [], [])
  {}

  /** If callers notify in the order of their changes, the changes are notified in that order. */
  lemma {:induction false} InOrder(q: Settings, acts: seq<Action>)
    requires forall i :: 0 <= i < |acts| && acts[i].Notify? ==> acts[i].which == 0
    ensures var s := Exec(q, acts);
            s.issued + s.toNotify == s.changes
  {
    hide Exec, Extreme, Added, Updated, Removed;
    if acts == [] {
      ExecNone(q);
    } else {
      var n := |acts| - 1;
      InOrder(q, acts[..n]);
      ExecNext(q, acts[..n], acts[n]);
      assert acts[..n] + [acts[n]] == acts;
      var s := Exec(q, acts[..n]);
      if acts[n] == Notify(0) && s.toNotify != [] {
        assert s.issued + [s.toNotify[0]] + s.toNotify[1..] == s.issued + s.toNotify;
      }
    }
  }

  /** Then the last value notified is the target once nothing is left to do. */
  lemma InOrderSettles(q: Settings, acts: seq<Action>)
    requires forall i :: 0 <= i < |acts| && acts[i].Notify? ==> acts[i].which == 0
    ensures var s := Exec(q, acts);
            s.toNotify == [] ==> s.target == if s.issued == [] then q.default else s.issued[|s.issued| - 1]
  {
    InOrder(q, acts);
    EveryRun(q, acts);
  }

  // ----- when the last notification is the target -----

  /** An order in which `n` waiting notifications can be sent: each time the index of one that is left. */
  predicate Drains(n: nat, order: seq<nat>) {
    |order| == n && forall i :: 0 <= i < n ==> order[i] < n - i
  }

  function Notifies(order: seq<nat>): (r: seq<Action>)
    ensures |r| == |order|
  {
    seq(|order|, i requires 0 <= i < |order| => Notify(order[i]))
  }

  function Without(s: seq<int>, i: nat): (r: seq<int>)
    requires i < |s|
    ensures |r| == |s| - 1
  {
    s[..i] + s[i + 1..]
  }

  /** The values in the order in which they are sent. */
  function Sent(left: seq<int>, order: seq<nat>): (r: seq<int>)
    requires Drains(|left|, order)
    ensures |r| == |left|
    ensures forall x :: x in r ==> x in left
    decreases |left|
  {
    if left == [] then [] else
      DrainsOn(|left|, order);
      [left[order[0]]] + Sent(Without(left, order[0]), order[1..])
  }

  lemma DrainsOn(n: nat, order: seq<nat>)
    requires Drains(n, order) && n > 0
    ensures order[0] < n && Drains(n - 1, order[1..])
  {
    forall i | 0 <= i < n - 1
      ensures order[1..][i] < n - 1 - i
    {
      assert order[i + 1] < n - (i + 1);
    }
  }

  /** What is left to notify after any run, sent in any order. */
  lemma {:induction false} Draining(q: Settings, acts: seq<Action>, order: seq<nat>)
    requires Drains(|Exec(q, acts).toNotify|, order)
    ensures var s := Exec(q, acts);
            Exec(q, acts + Notifies(order)) == s.(toNotify := [], issued := s.issued + Sent(s.toNotify, order))
    decreases |order|
  {
    hide Drains, Exec, Extreme, Added, Updated, Removed, Notifies;
    var s := Exec(q, acts);
    DrainLength(|s.toNotify|, order);
    if order == [] {
      assert acts + Notifies(order) == acts;
      assert s.toNotify == [] && s.issued + [] == s.issued;
    } else {
      DrainsOn(|s.toNotify|, order);
      var longer := acts + [Notify(order[0])];
      ExecNext(q, acts, Notify(order[0]));
      Draining(q, longer, order[1..]);
      NotifiesNext(acts, order);
      var first, later := s.toNotify[order[0]], Sent(Without(s.toNotify, order[0]), order[1..]);
      assert s.issued + [first] + later == s.issued + ([first] + later);
    }
  }

  lemma NotifiesNext(acts: seq<Action>, order: seq<nat>)
    requires order != []
    ensures acts + Notifies(order) == acts + [Notify(order[0])] + Notifies(order[1..])
  {}

  lemma DrainLength(n: nat, order: seq<nat>)
    requires Drains(n, order)
    ensures |order| == n
  {}

  /** The order that keeps entry `j` of `n` for last. */
  function LastOrder(n: nat, j: nat): (order: seq<nat>)
    requires j < n
    ensures |order| == n
  {
    if n == 1 then [0] else if j == 0 then [1] + LastOrder(n - 1, 0) else [0] + LastOrder(n - 1, j - 1)
  }

  lemma {:induction false} LastOrderDrains(n: nat, j: nat)
    requires j < n
    ensures Drains(n, LastOrder(n, j))
  {
    if n == 1 {
    } else {
      LastOrderDrains(n - 1, if j == 0 then 0 else j - 1);
    }
  }

  lemma {:induction false} KeptForLast(left: seq<int>, j: nat)
    requires j < |left|
    ensures Drains(|left|, LastOrder(|left|, j)) && Sent(left, LastOrder(|left|, j))[|left| - 1] == left[j]
    decreases |left|
  {
    LastOrderDrains(|left|, j);
    var order := LastOrder(|left|, j);
    DrainsOn(|left|, order);
    if |left| == 1 {
    } else {
      var rest, k := Without(left, order[0]), if j == 0 then 0 else j - 1;
      assert rest[k] == left[j];
      KeptForLast(rest, k);
      assert order[1..] == LastOrder(|rest|, k);
    }
  }

  /** After the run `acts`, sending what is left in this order ends with the target. */
  ghost predicate Settles(q: Settings, acts: seq<Action>, order: seq<nat>) {
    var t := Exec(q, acts + Notifies(order));
    t.toNotify == [] && t.issued != [] && t.issued[|t.issued| - 1] == t.target
  }

  /** After any run that leaves something to notify: the last value notified is the target in whatever
      order the callers come to it, if and only if nothing else than the target is left to notify. */
  lemma SettlesExactly(q: Settings, acts: seq<Action>)
    requires Exec(q, acts).toNotify != []
    ensures var s := Exec(q, acts);
            (forall order :: Drains(|s.toNotify|, order) ==> Settles(q, acts, order)) <==>
            (forall i :: 0 <= i < |s.toNotify| ==> s.toNotify[i] == s.target)
  {
    hide Exec, Drains, Sent, LastOrder;
    var s := Exec(q, acts);
    var n := |s.toNotify|;
    forall order | Drains(n, order)
      ensures Settles(q, acts, order) <==> Sent(s.toNotify, order)[n - 1] == s.target
      ensures Sent(s.toNotify, order)[n - 1] in s.toNotify
    {
      Draining(q, acts, order);
    }
    forall j | 0 <= j < n
      ensures Drains(n, LastOrder(n, j)) && Sent(s.toNotify, LastOrder(n, j))[n - 1] == s.toNotify[j]
    {
      KeptForLast(s.toNotify, j);
    }
  }
}
