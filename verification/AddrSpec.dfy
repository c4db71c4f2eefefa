/** Reference-counted address lists as values, and the protocol that keeps a destination list in
    step with a source list (compat-wireless/compat/compat-2.6.32.c). */
module AddrSpec {
  import opened Words

  type Key = seq<byte>

  /** A list element: how many users the address has, whether one of them is the global user, and
      whether the synchronisation holds it. */
  datatype Entry = Entry(key: Key, users: int, gusers: int, synced: bool)

  const OK := 0
  const ENOMEM := 12
  const ENOENT := 2

  /** Index of the first entry for `key`, or the length of the list. */
  function Find(l: seq<Entry>, key: Key): (i: nat)
    ensures i <= |l|
    ensures i < |l| ==> l[i].key == key
    ensures forall j :: 0 <= j < i ==> l[j].key != key
  {
    if l == [] then 0 else if l[0].key == key then 0 else 1 + Find(l[1..], key)
  }

  /** An existing entry after `__dev_addr_add`: a global user counts once. */
  function Added(e: Entry, glbl: bool): Entry {
    if glbl && e.gusers != 0 then e.(gusers := 1)
    else e.(users := e.users + 1, gusers := if glbl then 1 else e.gusers)
  }

  /** `__dev_addr_add`; `granted` says whether an allocation would succeed. */
  function Add(l: seq<Entry>, key: Key, glbl: bool, granted: bool): (seq<Entry>, int) {
    var i := Find(l, key);
    if i < |l| then (l[i := Added(l[i], glbl)], OK)
    else if !granted then (l, -ENOMEM)
    else ([Entry(key, 1, if glbl then 1 else 0, false)] + l, OK)
  }

  function Without(l: seq<Entry>, i: nat): seq<Entry>
    requires i < |l|
  {
    l[..i] + l[i + 1..]
  }

  /** `__dev_addr_delete`. */
  function Delete(l: seq<Entry>, key: Key, glbl: bool): (seq<Entry>, int) {
    var i := Find(l, key);
    if i == |l| then (l, -ENOENT)
    else if glbl && l[i].gusers == 0 then (l, -ENOENT)
    else
      var e := l[i].(users := l[i].users - 1, gusers := if glbl then 0 else l[i].gusers);
      if e.users != 0 then (l[i := e], OK) else (Without(l, i), OK)
  }

  /** One round of `__dev_addr_sync` for the source entry `e`: the new destination list, what
      remains of `e`, and the error. */
  function SyncOne(to: seq<Entry>, e: Entry, granted: bool): (seq<Entry>, seq<Entry>, int) {
    if !e.synced then
      var (to', err) := Add(to, e.key, false, granted);
      if err < 0 then (to', [e], err) else (to', [e.(synced := true, users := e.users + 1)], err)
    else if e.users == 1 then (Delete(to, e.key, false).0, [], OK)
    else (to, [e], OK)
  }

  /** Whether the round needs a new element in the destination. */
  predicate NeedsMemory(to: seq<Entry>, e: Entry) {
    !e.synced && Find(to, e.key) == |to|
  }

  /** `__dev_addr_sync`, when the first `mem` allocations succeed: it stops at the first failure. */
  function Sync(to: seq<Entry>, from: seq<Entry>, mem: nat): (seq<Entry>, seq<Entry>, int)
    decreases |from|
  {
    if from == [] then (to, [], OK) else
      var (to', kept, err) := SyncOne(to, from[0], mem > 0);
      if err < 0 then (to', kept + from[1..], err) else
        var left := if NeedsMemory(to, from[0]) && mem > 0 then mem - 1 else mem;
        var (to'', rest, err') := Sync(to', from[1..], left);
        (to'', kept + rest, err')
  }

  /** One round of `__dev_addr_unsync`. */
  function UnsyncOne(to: seq<Entry>, e: Entry): (seq<Entry>, seq<Entry>) {
    if !e.synced then (to, [e]) else
      (Delete(to, e.key, false).0, if e.users == 1 then [] else [e.(synced := false, users := e.users - 1)])
  }

  /** `__dev_addr_unsync`. */
  function Unsync(to: seq<Entry>, from: seq<Entry>): (seq<Entry>, seq<Entry>)
    decreases |from|
  {
    if from == [] then (to, []) else
      var (to', kept) := UnsyncOne(to, from[0]);
      var (to'', rest) := Unsync(to', from[1..]);
      (to'', kept + rest)
  }

  // ----- sums over the entries of one address -----

  /** What is added up: entries, their users and global users, and how many of them are synced. */
  datatype What = Entries | Users | Globals | Held

  function One(e: Entry, k: Key, w: What): int {
    if e.key != k then 0 else
    match w
    case Entries => 1
    case Users => e.users
    case Globals => e.gusers
    case Held => if e.synced then 1 else 0
  }

  function Sum(l: seq<Entry>, k: Key, w: What): int {
    if l == [] then 0 else One(l[0], k, w) + Sum(l[1..], k, w)
  }

  lemma {:induction false} SumConcat(a: seq<Entry>, b: seq<Entry>, k: Key, w: What)
    ensures Sum(a + b, k, w) == Sum(a, k, w) + Sum(b, k, w)
  {
    if a == [] {
      assert a + b == b;
    } else {
      SumConcat(a[1..], b, k, w);
      assert (a + b)[1..] == a[1..] + b;
    }
  }

  lemma SumSplit(a: seq<Entry>, m: seq<Entry>, b: seq<Entry>, k: Key, w: What)
    ensures Sum(a + m + b, k, w) == Sum(a, k, w) + Sum(m, k, w) + Sum(b, k, w)
  {
    SumConcat(a, m, k, w);
    SumConcat(a + m, b, k, w);
  }

  /** No address twice. */
  ghost predicate Unique(l: seq<Entry>) {
    forall i, j :: 0 <= i < j < |l| ==> l[i].key != l[j].key
  }

  ghost predicate InUse(l: seq<Entry>) {
    forall i :: 0 <= i < |l| ==> l[i].users >= 1 && 0 <= l[i].gusers <= 1
  }

  /** In a list without duplicates the sums of an address are the fields of its entry. */
  lemma SumAtFind(l: seq<Entry>, key: Key, w: What)
    requires Unique(l)
    ensures Find(l, key) < |l| ==> Sum(l, key, w) == One(l[Find(l, key)], key, w)
    ensures Find(l, key) == |l| ==> Sum(l, key, w) == 0
  {}

  // ----- what an addition and a removal change -----

  /** Replacing, inserting or dropping one entry changes the sums by the difference. */
  lemma SumReplaced(a: seq<Entry>, m: seq<Entry>, m': seq<Entry>, b: seq<Entry>, k: Key, w: What)
    ensures Sum(a + m' + b, k, w) == Sum(a + m + b, k, w) - Sum(m, k, w) + Sum(m', k, w)
  {
    SumSplit(a, m, b, k, w);
    SumSplit(a, m', b, k, w);
  }

  function AddChange(l: seq<Entry>, key: Key, glbl: bool, w: What): int {
    match w
    case Entries => if Find(l, key) == |l| then 1 else 0
    case Users => if glbl && Sum(l, key, Globals) == 1 then 0 else 1
    case Globals => if glbl then 1 - Sum(l, key, Globals) else 0
    case Held => 0
  }

  lemma AddSum(l: seq<Entry>, key: Key, glbl: bool, granted: bool, k: Key, w: What)
    requires Unique(l) && InUse(l) && Add(l, key, glbl, granted).1 == OK
    ensures Sum(Add(l, key, glbl, granted).0, k, w) == Sum(l, k, w) + if k == key then AddChange(l, key, glbl, w) else 0
  {
    var i := Find(l, key);
    SumAtFind(l, key, Globals);
    if i < |l| {
      var e := Added(l[i], glbl);
      assert l == l[..i] + [l[i]] + l[i + 1..];
      assert l[i := e] == l[..i] + [e] + l[i + 1..];
      SumReplaced(l[..i], [l[i]], [e], l[i + 1..], k, w);
    } else {
      SumConcat([Entry(key, 1, if glbl then 1 else 0, false)], l, k, w);
    }
  }

  lemma AddKeeps(l: seq<Entry>, key: Key, glbl: bool, granted: bool)
    requires Unique(l) && InUse(l)
    ensures Unique(Add(l, key, glbl, granted).0) && InUse(Add(l, key, glbl, granted).0)
    ensures Add(l, key, glbl, granted).1 < 0 ==> Add(l, key, glbl, granted).0 == l
  {}

  function DeleteChange(l: seq<Entry>, key: Key, glbl: bool, w: What): int {
    var last := Sum(l, key, Users) == 1;
    match w
    case Entries => if last then -1 else 0
    case Users => -1
    case Globals => if glbl || last then -Sum(l, key, Globals) else 0
    case Held => if last then -Sum(l, key, Held) else 0
  }

  lemma DeleteSum(l: seq<Entry>, key: Key, glbl: bool, k: Key, w: What)
    requires Unique(l) && InUse(l) && Delete(l, key, glbl).1 == OK
    ensures Sum(Delete(l, key, glbl).0, k, w) == Sum(l, k, w) + if k == key then DeleteChange(l, key, glbl, w) else 0
  {
    var i := Find(l, key);
    SumAtFind(l, key, Users);
    SumAtFind(l, key, Globals);
    SumAtFind(l, key, Held);
    var e := l[i].(users := l[i].users - 1, gusers := if glbl then 0 else l[i].gusers);
    assert l == l[..i] + [l[i]] + l[i + 1..];
    if e.users != 0 {
      assert l[i := e] == l[..i] + [e] + l[i + 1..];
      SumReplaced(l[..i], [l[i]], [e], l[i + 1..], k, w);
    } else {
      assert Without(l, i) == l[..i] + [] + l[i + 1..];
      SumReplaced(l[..i], [l[i]], [], l[i + 1..], k, w);
    }
  }

  lemma DeleteKeeps(l: seq<Entry>, key: Key, glbl: bool)
    requires Unique(l) && InUse(l)
    ensures Unique(Delete(l, key, glbl).0) && InUse(Delete(l, key, glbl).0)
    ensures Delete(l, key, glbl).1 < 0 ==> Delete(l, key, glbl).0 == l
  {}

  lemma DeleteSucceeds(l: seq<Entry>, key: Key, glbl: bool)
    requires Unique(l) && InUse(l)
    ensures Delete(l, key, glbl).1 == OK <==>
            Sum(l, key, Users) > 0 && (glbl ==> Sum(l, key, Globals) == 1)
  {
    SumAtFind(l, key, Users);
    SumAtFind(l, key, Globals);
  }

  // ----- the protocol -----

  /** Both lists, and for each the non-global users that callers have added and not yet deleted. */
  datatype World = World(to: seq<Entry>, from: seq<Entry>, extTo: map<Key, nat>, extFrom: map<Key, nat>)

  function Ext(m: map<Key, nat>, k: Key): nat {
    if k in m then m[k] else 0
  }

  /** Each source address has its own users, its global user and the synchronisation's hold; each
      destination address has its own users, its global user and one more exactly when the source
      entry is synced. */
  ghost predicate Balanced(to: seq<Entry>, from: seq<Entry>, extTo: map<Key, nat>, extFrom: map<Key, nat>, k: Key) {
    && Sum(to, k, Users) == Ext(extTo, k) + Sum(to, k, Globals) + Sum(from, k, Held)
    && Sum(from, k, Users) == Ext(extFrom, k) + Sum(from, k, Globals) + Sum(from, k, Held)
  }

  ghost predicate Inv(w: World) {
    && Unique(w.to) && Unique(w.from) && InUse(w.to) && InUse(w.from)
    && forall k: Key :: Balanced(w.to, w.from, w.extTo, w.extFrom, k)
  }

  lemma SumAtIndex(l: seq<Entry>, i: nat, w: What)
    requires Unique(l) && i < |l|
    ensures Sum(l, l[i].key, w) == One(l[i], l[i].key, w)
  {
    SumAtFind(l, l[i].key, w);
  }

  lemma Bounds(l: seq<Entry>, k: Key)
    requires Unique(l) && InUse(l)
    ensures 0 <= Sum(l, k, Globals) <= 1 && 0 <= Sum(l, k, Held) <= 1 && 0 <= Sum(l, k, Users)
    ensures Sum(l, k, Users) == 0 ==> Sum(l, k, Globals) == 0 && Sum(l, k, Held) == 0
  {
    SumAtFind(l, k, Users);
    SumAtFind(l, k, Globals);
    SumAtFind(l, k, Held);
  }

  /** The promise for each single entry of either list. */
  lemma Promise(w: World)
    requires Inv(w)
    ensures forall i :: 0 <= i < |w.from| ==>
              w.from[i].users == Ext(w.extFrom, w.from[i].key) + w.from[i].gusers + (if w.from[i].synced then 1 else 0)
    ensures forall i :: 0 <= i < |w.from| && w.from[i].synced ==> Find(w.to, w.from[i].key) < |w.to|
    ensures forall i :: 0 <= i < |w.to| ==>
              w.to[i].users == Ext(w.extTo, w.to[i].key) + w.to[i].gusers + SyncedIn(w.from, w.to[i].key)
  {
    forall i | 0 <= i < |w.from|
      ensures w.from[i].users == Ext(w.extFrom, w.from[i].key) + w.from[i].gusers + (if w.from[i].synced then 1 else 0)
      ensures w.from[i].synced ==> Find(w.to, w.from[i].key) < |w.to|
    {
      var k := w.from[i].key;
      assert Balanced(w.to, w.from, w.extTo, w.extFrom, k);
      SumAtIndex(w.from, i, Users);
      SumAtIndex(w.from, i, Globals);
      SumAtIndex(w.from, i, Held);
      SumAtFind(w.to, k, Users);
      SumAtFind(w.to, k, Globals);
    }
    forall i | 0 <= i < |w.to|
      ensures w.to[i].users == Ext(w.extTo, w.to[i].key) + w.to[i].gusers + SyncedIn(w.from, w.to[i].key)
    {
      var k := w.to[i].key;
      assert Balanced(w.to, w.from, w.extTo, w.extFrom, k);
      SumAtIndex(w.to, i, Users);
      SumAtIndex(w.to, i, Globals);
      SumAtFind(w.from, k, Held);
    }
  }

  /** One if the source has a synced entry for the address, otherwise zero. */
  function SyncedIn(from: seq<Entry>, k: Key): int {
    var i := Find(from, k);
    if i < |from| && from[i].synced then 1 else 0
  }

  /** The context of one round: the rounds before it are `done`, those after it `rest`. */
  function Around(w: World, done: seq<Entry>, m: seq<Entry>, rest: seq<Entry>, to: seq<Entry>): World {
    w.(to := to, from := done + m + rest)
  }

  lemma SourceKeeps(done: seq<Entry>, e: Entry, kept: seq<Entry>, rest: seq<Entry>)
    requires Unique(done + [e] + rest) && InUse(done + [e] + rest)
    requires kept == [] || (|kept| == 1 && kept[0].key == e.key && kept[0].users >= 1 && kept[0].gusers == e.gusers)
    ensures Unique(done + kept + rest) && InUse(done + kept + rest)
  {
    var l, l' := done + [e] + rest, done + kept + rest;
    assert l[|done|] == e;
    if kept == [] {
      assert l' == Without(l, |done|);
    } else {
      assert l' == l[|done| := kept[0]];
    }
  }

  /** The sums of the current entry, and what the balance says about it. */
  lemma CurrentEntry(w: World, done: seq<Entry>, e: Entry, rest: seq<Entry>)
    requires Inv(w) && w.from == done + [e] + rest
    ensures e.users == Ext(w.extFrom, e.key) + e.gusers + (if e.synced then 1 else 0)
    ensures e.users >= 1 && 0 <= e.gusers <= 1
    ensures Sum(w.to, e.key, Users) == Ext(w.extTo, e.key) + Sum(w.to, e.key, Globals) + (if e.synced then 1 else 0)
    ensures 0 <= Sum(w.to, e.key, Globals)
  {
    assert w.from[|done|] == e;
    SumAtIndex(w.from, |done|, Users);
    SumAtIndex(w.from, |done|, Globals);
    SumAtIndex(w.from, |done|, Held);
    assert Balanced(w.to, w.from, w.extTo, w.extFrom, e.key);
    Bounds(w.to, e.key);
  }

  lemma SyncOneKeeps(w: World, done: seq<Entry>, e: Entry, rest: seq<Entry>, granted: bool)
    requires Inv(w) && w.from == done + [e] + rest
    ensures var (to', kept, err) := SyncOne(w.to, e, granted);
            Inv(Around(w, done, kept, rest, to'))
  {
    var (to', kept, err) := SyncOne(w.to, e, granted);
    CurrentEntry(w, done, e, rest);
    SourceKeeps(done, e, kept, rest);
    AddKeeps(w.to, e.key, false, granted);
    DeleteKeeps(w.to, e.key, false);
    DeleteSucceeds(w.to, e.key, false);
    var from' := done + kept + rest;
    forall k: Key
      ensures Balanced(to', from', w.extTo, w.extFrom, k)
    {
      assert Balanced(w.to, w.from, w.extTo, w.extFrom, k);
      SourceSum(done, e, kept, rest, k, Users);
      SourceSum(done, e, kept, rest, k, Globals);
      SourceSum(done, e, kept, rest, k, Held);
      if !e.synced {
        if err == OK {
          AddSum(w.to, e.key, false, granted, k, Users);
          AddSum(w.to, e.key, false, granted, k, Globals);
        }
      } else if e.users == 1 {
        DeleteSum(w.to, e.key, false, k, Users);
        DeleteSum(w.to, e.key, false, k, Globals);
      }
    }
  }

  lemma SourceSum(done: seq<Entry>, e: Entry, kept: seq<Entry>, rest: seq<Entry>, k: Key, w: What)
    requires |kept| <= 1
    ensures Sum(done + kept + rest, k, w) ==
            Sum(done + [e] + rest, k, w) - One(e, k, w) + if kept == [] then 0 else One(kept[0], k, w)
  {
    SumReplaced(done, [e], kept, rest, k, w);
    assert kept != [] ==> kept == [kept[0]];
  }

  lemma UnsyncOneKeeps(w: World, done: seq<Entry>, e: Entry, rest: seq<Entry>)
    requires Inv(w) && w.from == done + [e] + rest
    ensures var (to', kept) := UnsyncOne(w.to, e);
            Inv(Around(w, done, kept, rest, to'))
  {
    var (to', kept) := UnsyncOne(w.to, e);
    CurrentEntry(w, done, e, rest);
    SourceKeeps(done, e, kept, rest);
    DeleteKeeps(w.to, e.key, false);
    DeleteSucceeds(w.to, e.key, false);
    var from' := done + kept + rest;
    forall k: Key
      ensures Balanced(to', from', w.extTo, w.extFrom, k)
    {
      assert Balanced(w.to, w.from, w.extTo, w.extFrom, k);
      SourceSum(done, e, kept, rest, k, Users);
      SourceSum(done, e, kept, rest, k, Globals);
      SourceSum(done, e, kept, rest, k, Held);
      if e.synced {
        DeleteSum(w.to, e.key, false, k, Users);
        DeleteSum(w.to, e.key, false, k, Globals);
      }
    }
  }

  lemma Associate(a: seq<Entry>, b: seq<Entry>, c: seq<Entry>)
    ensures (a + b) + c == a + (b + c)
  {}

  /** A whole pass, also one that an allocation failure cuts short, keeps the balance. */
  lemma {:induction false} SyncKeeps(w: World, done: seq<Entry>, rest: seq<Entry>, mem: nat)
    requires Inv(w) && w.from == done + rest
    ensures var (to', from', err) := Sync(w.to, rest, mem);
            Inv(w.(to := to', from := done + from'))
    decreases |rest|
  {
    if rest == [] {
    } else {
      var e, tail := rest[0], rest[1..];
      assert done + [e] + tail == done + rest;
      SyncOneKeeps(w, done, e, tail, mem > 0);
      var (to', kept, err) := SyncOne(w.to, e, mem > 0);
      Associate(done, kept, tail);
      if err >= 0 {
        var left := if NeedsMemory(w.to, e) && mem > 0 then mem - 1 else mem;
        SyncKeeps(Around(w, done, kept, tail, to'), done + kept, tail, left);
        Associate(done, kept, Sync(to', tail, left).1);
      }
    }
  }

  lemma {:induction false} UnsyncKeeps(w: World, done: seq<Entry>, rest: seq<Entry>)
    requires Inv(w) && w.from == done + rest
    ensures var (to', from') := Unsync(w.to, rest);
            Inv(w.(to := to', from := done + from'))
    decreases |rest|
  {
    if rest == [] {
    } else {
      var e, tail := rest[0], rest[1..];
      assert done + [e] + tail == done + rest;
      UnsyncOneKeeps(w, done, e, tail);
      var (to', kept) := UnsyncOne(w.to, e);
      Associate(done, kept, tail);
      UnsyncKeeps(Around(w, done, kept, tail, to'), done + kept, tail);
      Associate(done, kept, Unsync(to', tail).1);
    }
  }

  // ----- all runs -----

  datatype Action =
    | AddTo(key: Key, glbl: bool, granted: bool)
    | DeleteTo(key: Key, glbl: bool)
    | AddFrom(key: Key, glbl: bool, granted: bool)
    | DeleteFrom(key: Key, glbl: bool)
    | SyncPass(mem: nat)
    | UnsyncPass

  /** Callers delete no non-global user that they have not added. */
  predicate Legal(w: World, a: Action) {
    && (a.DeleteTo? && !a.glbl && Find(w.to, a.key) < |w.to| ==> Ext(w.extTo, a.key) >= 1)
    && (a.DeleteFrom? && !a.glbl && Find(w.from, a.key) < |w.from| ==> Ext(w.extFrom, a.key) >= 1)
  }

  function Step(w: World, a: Action): World {
    if !Legal(w, a) then w else
    match a
    case AddTo(key, glbl, granted) =>
      var (l, err) := Add(w.to, key, glbl, granted);
      w.(to := l, extTo := if err == OK && !glbl then w.extTo[key := Ext(w.extTo, key) + 1] else w.extTo)
    case DeleteTo(key, glbl) =>
      var (l, err) := Delete(w.to, key, glbl);
      w.(to := l, extTo := if err == OK && !glbl then w.extTo[key := Ext(w.extTo, key) - 1] else w.extTo)
    case AddFrom(key, glbl, granted) =>
      var (l, err) := Add(w.from, key, glbl, granted);
      w.(from := l, extFrom := if err == OK && !glbl then w.extFrom[key := Ext(w.extFrom, key) + 1] else w.extFrom)
    case DeleteFrom(key, glbl) =>
      var (l, err) := Delete(w.from, key, glbl);
      w.(from := l, extFrom := if err == OK && !glbl then w.extFrom[key := Ext(w.extFrom, key) - 1] else w.extFrom)
    case SyncPass(mem) =>
      var (to, from, _) := Sync(w.to, w.from, mem);
      w.(to := to, from := from)
    case UnsyncPass =>
      var (to, from) := Unsync(w.to, w.from);
      w.(to := to, from := from)
  }

  /** What the call returns. */
  function Result(w: World, a: Action): int {
    match a
    case AddTo(key, glbl, granted) => Add(w.to, key, glbl, granted).1
    case DeleteTo(key, glbl) => Delete(w.to, key, glbl).1
    case AddFrom(key, glbl, granted) => Add(w.from, key, glbl, granted).1
    case DeleteFrom(key, glbl) => Delete(w.from, key, glbl).1
    case SyncPass(mem) => Sync(w.to, w.from, mem).2
    case UnsyncPass => OK
  }

  function Exec(w: World, actions: seq<Action>): World {
    if actions == [] then w else Step(Exec(w, actions[..|actions| - 1]), actions[|actions| - 1])
  }

  lemma AddToKeeps(w: World, key: Key, glbl: bool, granted: bool)
    requires Inv(w)
    ensures Inv(Step(w, AddTo(key, glbl, granted)))
  {
    var w' := Step(w, AddTo(key, glbl, granted));
    AddKeeps(w.to, key, glbl, granted);
    Bounds(w.to, key);
    forall k: Key
      ensures Balanced(w'.to, w'.from, w'.extTo, w'.extFrom, k)
    {
      assert Balanced(w.to, w.from, w.extTo, w.extFrom, k);
      if Add(w.to, key, glbl, granted).1 == OK {
        AddSum(w.to, key, glbl, granted, k, Users);
        AddSum(w.to, key, glbl, granted, k, Globals);
      }
    }
  }

  lemma AddFromKeeps(w: World, key: Key, glbl: bool, granted: bool)
    requires Inv(w)
    ensures Inv(Step(w, AddFrom(key, glbl, granted)))
  {
    var w' := Step(w, AddFrom(key, glbl, granted));
    AddKeeps(w.from, key, glbl, granted);
    Bounds(w.from, key);
    forall k: Key
      ensures Balanced(w'.to, w'.from, w'.extTo, w'.extFrom, k)
    {
      assert Balanced(w.to, w.from, w.extTo, w.extFrom, k);
      if Add(w.from, key, glbl, granted).1 == OK {
        AddSum(w.from, key, glbl, granted, k, Users);
        AddSum(w.from, key, glbl, granted, k, Globals);
        AddSum(w.from, key, glbl, granted, k, Held);
      }
    }
  }

  lemma DeleteToKeeps(w: World, key: Key, glbl: bool)
    requires Inv(w) && Legal(w, DeleteTo(key, glbl))
    ensures Inv(Step(w, DeleteTo(key, glbl)))
  {
    var w' := Step(w, DeleteTo(key, glbl));
    DeleteKeeps(w.to, key, glbl);
    DeleteSucceeds(w.to, key, glbl);
    Bounds(w.to, key);
    Bounds(w.from, key);
    assert Balanced(w.to, w.from, w.extTo, w.extFrom, key);
    forall k: Key
      ensures Balanced(w'.to, w'.from, w'.extTo, w'.extFrom, k)
    {
      assert Balanced(w.to, w.from, w.extTo, w.extFrom, k);
      if Delete(w.to, key, glbl).1 == OK {
        DeleteSum(w.to, key, glbl, k, Users);
        DeleteSum(w.to, key, glbl, k, Globals);
      }
    }
  }

  lemma DeleteFromKeeps(w: World, key: Key, glbl: bool)
    requires Inv(w) && Legal(w, DeleteFrom(key, glbl))
    ensures Inv(Step(w, DeleteFrom(key, glbl)))
  {
    var w' := Step(w, DeleteFrom(key, glbl));
    DeleteKeeps(w.from, key, glbl);
    DeleteSucceeds(w.from, key, glbl);
    Bounds(w.from, key);
    assert Balanced(w.to, w.from, w.extTo, w.extFrom, key);
    forall k: Key
      ensures Balanced(w'.to, w'.from, w'.extTo, w'.extFrom, k)
    {
      assert Balanced(w.to, w.from, w.extTo, w.extFrom, k);
      if Delete(w.from, key, glbl).1 == OK {
        DeleteSum(w.from, key, glbl, k, Users);
        DeleteSum(w.from, key, glbl, k, Globals);
        DeleteSum(w.from, key, glbl, k, Held);
      }
    }
  }

  lemma SyncPassKeeps(w: World, mem: nat)
    requires Inv(w)
    ensures Inv(Step(w, SyncPass(mem)))
  {
    assert w.from == [] + w.from;
    SyncKeeps(w, [], w.from, mem);
    var from' := Sync(w.to, w.from, mem).1;
    assert [] + from' == from';
  }

  lemma UnsyncPassKeeps(w: World)
    requires Inv(w)
    ensures Inv(Step(w, UnsyncPass))
  {
    assert w.from == [] + w.from;
    UnsyncKeeps(w, [], w.from);
    var from' := Unsync(w.to, w.from).1;
    assert [] + from' == from';
  }

  lemma StepKeeps(w: World, a: Action)
    requires Inv(w)
    ensures Inv(Step(w, a))
  {
    if Legal(w, a) {
      match a
      case AddTo(key, glbl, granted) => AddToKeeps(w, key, glbl, granted);
      case DeleteTo(key, glbl) => DeleteToKeeps(w, key, glbl);
      case AddFrom(key, glbl, granted) => AddFromKeeps(w, key, glbl, granted);
      case DeleteFrom(key, glbl) => DeleteFromKeeps(w, key, glbl);
      case SyncPass(mem) => SyncPassKeeps(w, mem);
      case UnsyncPass => UnsyncPassKeeps(w);
    }
  }

  /** A successful call for an own user is counted, in the list and among the users of its callers. */
  lemma StepCounts(w: World, key: Key, granted: bool, k: Key)
    requires Inv(w)
    ensures Result(w, AddTo(key, false, granted)) == OK ==>
              var t := Step(w, AddTo(key, false, granted));
              && t.from == w.from && t.extFrom == w.extFrom
              && Sum(t.to, k, Users) == Sum(w.to, k, Users) + (if k == key then 1 else 0)
              && Ext(t.extTo, k) == Ext(w.extTo, k) + (if k == key then 1 else 0)
    ensures Result(w, AddFrom(key, false, granted)) == OK ==>
              var t := Step(w, AddFrom(key, false, granted));
              && t.to == w.to && t.extTo == w.extTo
              && Sum(t.from, k, Users) == Sum(w.from, k, Users) + (if k == key then 1 else 0)
              && Ext(t.extFrom, k) == Ext(w.extFrom, k) + (if k == key then 1 else 0)
    ensures Legal(w, DeleteTo(key, false)) && Result(w, DeleteTo(key, false)) == OK ==>
              var t := Step(w, DeleteTo(key, false));
              && t.from == w.from && t.extFrom == w.extFrom
              && Sum(t.to, k, Users) == Sum(w.to, k, Users) - (if k == key then 1 else 0)
              && Ext(t.extTo, k) == Ext(w.extTo, k) - (if k == key then 1 else 0)
    ensures Legal(w, DeleteFrom(key, false)) && Result(w, DeleteFrom(key, false)) == OK ==>
              var t := Step(w, DeleteFrom(key, false));
              && t.to == w.to && t.extTo == w.extTo
              && Sum(t.from, k, Users) == Sum(w.from, k, Users) - (if k == key then 1 else 0)
              && Ext(t.extFrom, k) == Ext(w.extFrom, k) - (if k == key then 1 else 0)
  {
    hide Find, Sum, Add, Delete;
    if Add(w.to, key, false, granted).1 == OK {
      AddSum(w.to, key, false, granted, k, Users);
    }
    if Add(w.from, key, false, granted).1 == OK {
      AddSum(w.from, key, false, granted, k, Users);
    }
    if Delete(w.to, key, false).1 == OK {
      DeleteSum(w.to, key, false, k, Users);
    }
    if Delete(w.from, key, false).1 == OK {
      DeleteSum(w.from, key, false, k, Users);
    }
  }

  /** The outcomes of single calls: an addition fails only for want of memory for a new address, a deletion
      only for want of the user. */
  lemma ResultsMean(l: seq<Entry>, key: Key, glbl: bool, granted: bool)
    ensures Add(l, key, glbl, granted).1 == if Find(l, key) < |l| || granted then OK else -ENOMEM
    ensures Delete(l, key, glbl).1 == if Find(l, key) < |l| && (glbl ==> l[Find(l, key)].gusers != 0) then OK else -ENOENT
  {}

  /** From two empty lists, every run of adds, balanced deletes and passes keeps the promise. */
  lemma {:induction false} EveryRunKeeps(actions: seq<Action>)
    ensures Inv(Exec(World([], [], map[], map[]), actions))
  {
    if actions == [] {
    } else {
      EveryRunKeeps(actions[..|actions| - 1]);
      StepKeeps(Exec(World([], [], map[], map[]), actions[..|actions| - 1]), actions[|actions| - 1]);
    }
  }

  // ----- what a pass achieves -----

  /** Synced entries have the hold and their global user among their users. */
  ghost predicate HoldsCounted(l: seq<Entry>) {
    forall i :: 0 <= i < |l| && l[i].synced ==> l[i].users >= 1 + l[i].gusers
  }

  /** Every entry is synced and has another user besides. */
  ghost predicate AllHeld(l: seq<Entry>) {
    forall i :: 0 <= i < |l| ==> l[i].synced && l[i].users >= 2
  }

  ghost predicate NoneHeld(l: seq<Entry>) {
    forall i :: 0 <= i < |l| ==> !l[i].synced
  }

  /** The source after a successful pass. */
  lemma {:induction false} SyncedSource(to: seq<Entry>, from: seq<Entry>, mem: nat, k: Key)
    requires InUse(from) && HoldsCounted(from) && Sync(to, from, mem).2 == OK
    ensures AllHeld(Sync(to, from, mem).1) && Sum(Sync(to, from, mem).1, k, Globals) == Sum(from, k, Globals)
    decreases |from|
  {
    if from == [] {
    } else {
      var e := from[0];
      var (to', kept, err) := SyncOne(to, e, mem > 0);
      var left := if NeedsMemory(to, e) && mem > 0 then mem - 1 else mem;
      SyncedSource(to', from[1..], left, k);
      SumConcat(kept, Sync(to', from[1..], left).1, k, Globals);
      assert Sum(kept, k, Globals) == One(e, k, Globals) by {
        assert kept != [] ==> kept[1..] == [];
      }
    }
  }

  lemma {:induction false} UnsyncedSource(to: seq<Entry>, from: seq<Entry>, k: Key)
    requires InUse(from) && HoldsCounted(from)
    ensures NoneHeld(Unsync(to, from).1) && Sum(Unsync(to, from).1, k, Globals) == Sum(from, k, Globals)
    decreases |from|
  {
    if from == [] {
    } else {
      var (to', kept) := UnsyncOne(to, from[0]);
      UnsyncedSource(to', from[1..], k);
      SumConcat(kept, Unsync(to', from[1..]).1, k, Globals);
      assert Sum(kept, k, Globals) == One(from[0], k, Globals) by {
        assert kept != [] ==> kept[1..] == [];
      }
    }
  }

  /** A pass touches no global user of the destination. */
  lemma SyncOneGlobals(w: World, done: seq<Entry>, e: Entry, rest: seq<Entry>, granted: bool, k: Key)
    requires Inv(w) && w.from == done + [e] + rest
    ensures Sum(SyncOne(w.to, e, granted).0, k, Globals) == Sum(w.to, k, Globals)
  {
    hide Find, Sum;
    CurrentEntry(w, done, e, rest);
    AddKeeps(w.to, e.key, false, granted);
    DeleteKeeps(w.to, e.key, false);
    DeleteSucceeds(w.to, e.key, false);
    if Add(w.to, e.key, false, granted).1 == OK {
      AddSum(w.to, e.key, false, granted, k, Globals);
    }
    if e.synced {
      DeleteSum(w.to, e.key, false, k, Globals);
    }
  }

  lemma {:induction false} SyncGlobals(w: World, done: seq<Entry>, rest: seq<Entry>, mem: nat, k: Key)
    requires Inv(w) && w.from == done + rest
    ensures Sum(Sync(w.to, rest, mem).0, k, Globals) == Sum(w.to, k, Globals)
    decreases |rest|
  {
    if rest == [] {
    } else {
      var e, tail := rest[0], rest[1..];
      assert done + [e] + tail == done + rest;
      SyncOneKeeps(w, done, e, tail, mem > 0);
      SyncOneGlobals(w, done, e, tail, mem > 0, k);
      var (to', kept, err) := SyncOne(w.to, e, mem > 0);
      if err >= 0 {
        var left := if NeedsMemory(w.to, e) && mem > 0 then mem - 1 else mem;
        SyncGlobals(Around(w, done, kept, tail, to'), done + kept, tail, left, k);
      }
    }
  }

  lemma {:induction false} UnsyncGlobals(w: World, done: seq<Entry>, rest: seq<Entry>, k: Key)
    requires Inv(w) && w.from == done + rest
    ensures Sum(Unsync(w.to, rest).0, k, Globals) == Sum(w.to, k, Globals)
    decreases |rest|
  {
    if rest == [] {
    } else {
      var e, tail := rest[0], rest[1..];
      assert done + [e] + tail == done + rest;
      UnsyncOneKeeps(w, done, e, tail);
      UnsyncOneGlobals(w, done, e, tail, k);
      var (to', kept) := UnsyncOne(w.to, e);
      UnsyncGlobals(Around(w, done, kept, tail, to'), done + kept, tail, k);
    }
  }

  lemma UnsyncOneGlobals(w: World, done: seq<Entry>, e: Entry, rest: seq<Entry>, k: Key)
    requires Inv(w) && w.from == done + [e] + rest
    ensures Sum(UnsyncOne(w.to, e).0, k, Globals) == Sum(w.to, k, Globals)
  {
    hide Find, Sum;
    CurrentEntry(w, done, e, rest);
    DeleteSucceeds(w.to, e.key, false);
    if e.synced {
      DeleteSum(w.to, e.key, false, k, Globals);
    }
  }

  lemma BalanceCounts(w: World)
    requires Inv(w)
    ensures HoldsCounted(w.from)
  {
    Promise(w);
  }

  /** After a successful pass the source has exactly the addresses that it has users of its own or a global
      user for, all of them synced; and each has exactly one more user in the destination. */
  lemma SyncSettles(w: World, mem: nat, k: Key)
    requires Inv(w) && Sync(w.to, w.from, mem).2 == OK
    ensures var (to', from', _) := Sync(w.to, w.from, mem);
            var wanted := Ext(w.extFrom, k) + Sum(w.from, k, Globals) > 0;
            && AllHeld(from') && (Find(from', k) < |from'| <==> wanted)
            && Sum(to', k, Globals) == Sum(w.to, k, Globals)
            && Sum(to', k, Users) == Ext(w.extTo, k) + Sum(w.to, k, Globals) + if wanted then 1 else 0
  {
    hide Sync, Sum, Find;
    SyncGlobals(w, [], w.from, mem, k);
    assert w.from == [] + w.from;
    var (to', from', _) := Sync(w.to, w.from, mem);
    BalanceCounts(w);
    SyncedSource(w.to, w.from, mem, k);
    SyncPassKeeps(w, mem);
    assert Balanced(to', from', w.extTo, w.extFrom, k);
    SumAtFind(from', k, Users);
    SumAtFind(from', k, Globals);
    SumAtFind(from', k, Held);
  }

  /** After an unsync nothing is held: all users in both lists are the callers' own and global ones. */
  lemma UnsyncSettles(w: World, k: Key)
    requires Inv(w)
    ensures var (to', from') := Unsync(w.to, w.from);
            && NoneHeld(from')
            && (Find(from', k) < |from'| <==> Ext(w.extFrom, k) + Sum(w.from, k, Globals) > 0)
            && Sum(from', k, Users) == Ext(w.extFrom, k) + Sum(w.from, k, Globals)
            && Sum(to', k, Globals) == Sum(w.to, k, Globals)
            && Sum(to', k, Users) == Ext(w.extTo, k) + Sum(w.to, k, Globals)
  {
    hide Unsync, Sum, Find;
    UnsyncGlobals(w, [], w.from, k);
    assert w.from == [] + w.from;
    var (to', from') := Unsync(w.to, w.from);
    BalanceCounts(w);
    UnsyncedSource(w.to, w.from, k);
    UnsyncPassKeeps(w);
    assert Balanced(to', from', w.extTo, w.extFrom, k);
    SumAtFind(from', k, Users);
    SumAtFind(from', k, Held);
  }

  /** A pass that fails has done a successful pass over the entries before one that needed an element and
      got none, and left that one and everything behind it alone. */
  lemma {:induction false} SyncCutShort(to: seq<Entry>, from: seq<Entry>, mem: nat) returns (j: nat)
    requires Sync(to, from, mem).2 != OK
    ensures j < |from| && Sync(to, from[..j], mem).2 == OK && !from[j].synced
    ensures Find(Sync(to, from[..j], mem).0, from[j].key) == |Sync(to, from[..j], mem).0|
    ensures Sync(to, from, mem) == (Sync(to, from[..j], mem).0, Sync(to, from[..j], mem).1 + from[j..], -ENOMEM)
    decreases |from|
  {
    var e := from[0];
    var (to', kept, err) := SyncOne(to, e, mem > 0);
    if err < 0 {
      j := 0;
      assert from[..0] == [] && [] + from[0..] == [e] + from[1..];
    } else {
      var left := if NeedsMemory(to, e) && mem > 0 then mem - 1 else mem;
      var i := SyncCutShort(to', from[1..], left);
      j := i + 1;
      var front := from[..j];
      assert front[0] == e && front[1..] == from[1..][..i] && from[1..][i..] == from[j..];
      Associate(kept, Sync(to', from[1..][..i], left).1, from[j..]);
    }
  }

  predicate Present(l: seq<Entry>, k: Key) {
    Find(l, k) < |l|
  }

  /** How many source entries need a new element in the destination. */
  function Missing(to: seq<Entry>, from: seq<Entry>): nat {
    if from == [] then 0 else (if NeedsMemory(to, from[0]) then 1 else 0) + Missing(to, from[1..])
  }

  /** Adding or deleting one address leaves the presence of the others alone. */
  lemma OthersPresent(l: seq<Entry>, key: Key, granted: bool, k: Key)
    requires k != key
    ensures Present(Add(l, key, false, granted).0, k) == Present(l, k)
    ensures Present(Delete(l, key, false).0, k) == Present(l, k)
  {
    var i := Find(l, key);
    if i < |l| {
      FindUpdate(l, i, Added(l[i], false), k);
      FindUpdate(l, i, l[i].(users := l[i].users - 1), k);
      FindWithout(l, i, k);
    } else {
      FindCons(Entry(key, 1, 0, false), l, k);
    }
  }

  lemma {:induction false} MissingSame(to: seq<Entry>, to': seq<Entry>, from: seq<Entry>)
    requires forall i :: 0 <= i < |from| ==> Present(to, from[i].key) == Present(to', from[i].key)
    ensures Missing(to, from) == Missing(to', from)
  {
    if from == [] {
    } else {
      MissingSame(to, to', from[1..]);
    }
  }

  /** A pass succeeds if and only if there is memory for every address that the destination lacks. */
  lemma {:induction false} SyncSucceeds(to: seq<Entry>, from: seq<Entry>, mem: nat)
    requires Unique(from)
    ensures Sync(to, from, mem).2 == OK <==> Missing(to, from) <= mem
    decreases |from|
  {
    if from == [] {
    } else {
      var e, tail := from[0], from[1..];
      var (to', kept, err) := SyncOne(to, e, mem > 0);
      var left := if NeedsMemory(to, e) && mem > 0 then mem - 1 else mem;
      forall i | 0 <= i < |tail|
        ensures Present(to, tail[i].key) == Present(to', tail[i].key)
      {
        assert tail[i].key == from[i + 1].key != e.key;
        OthersPresent(to, e.key, mem > 0, tail[i].key);
      }
      MissingSame(to, to', tail);
      SyncSucceeds(to', tail, left);
    }
  }

  // ----- order -----

  /** A new address comes in front; a known one stays where it is. */
  lemma AddPlaces(l: seq<Entry>, key: Key, glbl: bool)
    ensures var (l', err) := Add(l, key, glbl, true);
            err == OK && Keys(l') == if Find(l, key) < |l| then Keys(l) else [key] + Keys(l)
  {}

  /** A deletion leaves the other addresses in their order. */
  lemma DeletePlaces(l: seq<Entry>, key: Key, glbl: bool)
    ensures var l', i := Delete(l, key, glbl).0, Find(l, key);
            Keys(l') == Keys(l) || (i < |l| && Keys(l') == Keys(l)[..i] + Keys(l)[i + 1..])
  {
    var l', i := Delete(l, key, glbl).0, Find(l, key);
    if |l'| < |l| {
      assert Keys(l') == Keys(l)[..i] + Keys(l)[i + 1..];
    } else {
      assert Keys(l') == Keys(l);
    }
  }

  // ----- sync, then unsync -----

  function Keys(l: seq<Entry>): (r: seq<Key>)
    ensures |r| == |l|
  {
    seq(|l|, i requires 0 <= i < |l| => l[i].key)
  }

  function AddAll(l: seq<Entry>, keys: seq<Key>): seq<Entry>
    decreases |keys|
  {
    if keys == [] then l else AddAll(Add(l, keys[0], false, true).0, keys[1..])
  }

  function DeleteAll(l: seq<Entry>, keys: seq<Key>): seq<Entry>
    decreases |keys|
  {
    if keys == [] then l else DeleteAll(Delete(l, keys[0], false).0, keys[1..])
  }

  /** A source entry that the pass has marked as its own. */
  function Marked(e: Entry): Entry {
    e.(synced := true, users := e.users + 1)
  }

  function MarkAll(l: seq<Entry>): (r: seq<Entry>)
    ensures |r| == |l|
  {
    seq(|l|, i requires 0 <= i < |l| => Marked(l[i]))
  }

  lemma FindIs(l: seq<Entry>, k: Key, i: nat)
    requires i < |l| && l[i].key == k && forall j :: 0 <= j < i ==> l[j].key != k
    ensures Find(l, k) == i
  {}

  lemma FindNone(l: seq<Entry>, k: Key)
    requires forall j :: 0 <= j < |l| ==> l[j].key != k
    ensures Find(l, k) == |l|
  {}

  /** Deleting the address just added restores the list, order included. */
  lemma DeleteUndoesAdd(l: seq<Entry>, key: Key)
    requires InUse(l)
    ensures Delete(Add(l, key, false, true).0, key, false).0 == l
  {
    var i := Find(l, key);
    var l' := Add(l, key, false, true).0;
    if i < |l| {
      FindIs(l', key, i);
      assert l'[i := l[i]] == l;
    } else {
      FindIs(l', key, 0);
      assert Without(l', 0) == l;
    }
  }

  /** Adding one address and deleting another may be exchanged. */
  lemma DeleteAddCommute(l: seq<Entry>, k: Key, k': Key)
    requires k != k'
    ensures Delete(Add(l, k', false, true).0, k, false).0 == Add(Delete(l, k, false).0, k', false, true).0
  {
    var i, j := Find(l, k), Find(l, k');
    if i == |l| {
      CommuteAbsent(l, k, k');
    } else if j == |l| {
      CommuteInsert(l, k, k');
    } else {
      CommuteUpdate(l, k, k');
    }
  }

  lemma FindCons(n: Entry, l: seq<Entry>, k: Key)
    requires n.key != k
    ensures Find([n] + l, k) == 1 + Find(l, k)
  {}

  lemma FindUpdate(l: seq<Entry>, j: nat, f: Entry, k: Key)
    requires j < |l| && f.key == l[j].key
    ensures Find(l[j := f], k) == Find(l, k)
  {
    if Find(l, k) < |l| {
      FindIs(l[j := f], k, Find(l, k));
    } else {
      FindNone(l[j := f], k);
    }
  }

  lemma FindWithout(l: seq<Entry>, i: nat, k: Key)
    requires i < |l| && l[i].key != k
    ensures Find(Without(l, i), k) == if Find(l, k) < i then Find(l, k) else Find(l, k) - 1
  {
    var j := Find(l, k);
    if j == |l| {
      FindNone(Without(l, i), k);
    } else {
      FindIs(Without(l, i), k, if j < i then j else j - 1);
    }
  }

  lemma ConsAndChange(n: Entry, l: seq<Entry>, i: nat, e: Entry)
    requires i < |l|
    ensures ([n] + l)[i + 1 := e] == [n] + l[i := e]
    ensures Without([n] + l, i + 1) == [n] + Without(l, i)
  {}

  lemma ChangeBoth(l: seq<Entry>, i: nat, e: Entry, j: nat, f: Entry)
    requires i < |l| && j < |l| && i != j
    ensures l[j := f][i := e] == l[i := e][j := f]
    ensures Without(l[j := f], i) == Without(l, i)[(if j < i then j else j - 1) := f]
  {}

  lemma CommuteAbsent(l: seq<Entry>, k: Key, k': Key)
    requires k != k' && Find(l, k) == |l|
    ensures Delete(Add(l, k', false, true).0, k, false).0 == Add(Delete(l, k, false).0, k', false, true).0
  {}

  lemma CommuteInsert(l: seq<Entry>, k: Key, k': Key)
    requires k != k' && Find(l, k) < |l| && Find(l, k') == |l|
    ensures Delete(Add(l, k', false, true).0, k, false).0 == Add(Delete(l, k, false).0, k', false, true).0
  {
    var i := Find(l, k);
    var n, e := Entry(k', 1, 0, false), l[i].(users := l[i].users - 1);
    FindCons(n, l, k);
    FindUpdate(l, i, e, k');
    FindWithout(l, i, k');
    ConsAndChange(n, l, i, e);
  }

  lemma CommuteUpdate(l: seq<Entry>, k: Key, k': Key)
    requires k != k' && Find(l, k) < |l| && Find(l, k') < |l|
    ensures Delete(Add(l, k', false, true).0, k, false).0 == Add(Delete(l, k, false).0, k', false, true).0
  {
    var i, j := Find(l, k), Find(l, k');
    var e, f := l[i].(users := l[i].users - 1), Added(l[j], false);
    FindUpdate(l, j, f, k);
    FindUpdate(l, i, e, k');
    FindWithout(l, i, k');
    ChangeBoth(l, i, e, j, f);
  }

  ghost predicate Distinct(keys: seq<Key>) {
    forall i, j :: 0 <= i < j < |keys| ==> keys[i] != keys[j]
  }

  /** Deleting an address passes all additions of other addresses. */
  lemma {:induction false} DeletePassesAddAll(l: seq<Entry>, k: Key, keys: seq<Key>)
    requires Unique(l) && InUse(l) && k !in keys
    ensures Delete(AddAll(l, keys), k, false).0 == AddAll(Delete(l, k, false).0, keys)
    decreases |keys|
  {
    if keys == [] {
    } else {
      AddKeeps(l, keys[0], false, true);
      DeletePassesAddAll(Add(l, keys[0], false, true).0, k, keys[1..]);
      DeleteAddCommute(l, k, keys[0]);
    }
  }

  lemma {:induction false} DeleteAllUndoesAddAll(l: seq<Entry>, keys: seq<Key>)
    requires Unique(l) && InUse(l) && Distinct(keys)
    ensures DeleteAll(AddAll(l, keys), keys) == l
    decreases |keys|
  {
    if keys == [] {
    } else {
      var l1 := Add(l, keys[0], false, true).0;
      AddKeeps(l, keys[0], false, true);
      DeletePassesAddAll(l1, keys[0], keys[1..]);
      DeleteUndoesAdd(l, keys[0]);
      DeleteAllUndoesAddAll(l, keys[1..]);
    }
  }

  /** A successful pass over a source with nothing synced adds every address and marks it. */
  lemma {:induction false} SyncOfUnsynced(to: seq<Entry>, from: seq<Entry>, mem: nat)
    requires forall i :: 0 <= i < |from| ==> !from[i].synced
    requires Sync(to, from, mem).2 == OK
    ensures Sync(to, from, mem) == (AddAll(to, Keys(from)), MarkAll(from), OK)
    decreases |from|
  {
    hide Find;
    if from == [] {
    } else {
      var e := from[0];
      var (to', kept, err) := SyncOne(to, e, mem > 0);
      assert Add(to, e.key, false, mem > 0) == Add(to, e.key, false, true);
      var left := if NeedsMemory(to, e) && mem > 0 then mem - 1 else mem;
      SyncOfUnsynced(to', from[1..], left);
      assert Keys(from)[1..] == Keys(from[1..]);
      assert [Marked(e)] + MarkAll(from[1..]) == MarkAll(from);
    }
  }

  lemma {:induction false} UnsyncOfMarked(to: seq<Entry>, from: seq<Entry>)
    requires InUse(from) && forall i :: 0 <= i < |from| ==> !from[i].synced
    ensures Unsync(to, MarkAll(from)) == (DeleteAll(to, Keys(from)), from)
    decreases |from|
  {
    if from == [] {
    } else {
      assert MarkAll(from)[1..] == MarkAll(from[1..]);
      assert Keys(from)[1..] == Keys(from[1..]);
      UnsyncOfMarked(Delete(to, from[0].key, false).0, from[1..]);
      assert [from[0]] + from[1..] == from;
    }
  }

  /** A successful sync followed by an unsync, from a source with nothing synced, restores both
      lists exactly: addresses, counts, flags and order. */
  lemma UnsyncUndoesSync(to: seq<Entry>, from: seq<Entry>, mem: nat)
    requires Unique(to) && InUse(to) && Unique(from) && InUse(from)
    requires forall i :: 0 <= i < |from| ==> !from[i].synced
    requires Sync(to, from, mem).2 == OK
    ensures var (to', from', _) := Sync(to, from, mem);
            Unsync(to', from') == (to, from)
  {
    SyncOfUnsynced(to, from, mem);
    UnsyncOfMarked(AddAll(to, Keys(from)), from);
    DeleteAllUndoesAddAll(to, Keys(from));
  }

  /** The source stays without duplicates. */
  lemma SyncedUnique(to: seq<Entry>, from: seq<Entry>, mem: nat)
    requires Unique(from) && (forall i :: 0 <= i < |from| ==> !from[i].synced) && Sync(to, from, mem).2 == OK
    ensures Unique(Sync(to, from, mem).1)
  {
    SyncOfUnsynced(to, from, mem);
    var marked := MarkAll(from);
    assert forall i :: 0 <= i < |from| ==> marked[i].key == from[i].key;
  }
}
