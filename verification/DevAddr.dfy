/** The linked address lists of compat-wireless/compat/compat-2.6.32.c, updated in place, against the
    list values of AddrSpec. */
module DevAddr {
  import opened AddrSpec

  /** `struct dev_addr_list`. */
  class Node {
    var key: Key
    var users: int
    var gusers: int
    var synced: bool
    var next: Node?

    constructor (key: Key, users: int, gusers: int, next: Node?)
      ensures this.key == key && this.users == users && this.gusers == gusers && !synced && this.next == next
    {
      this.key, this.users, this.gusers, this.synced, this.next := key, users, gusers, false, next;
    }

    ghost predicate Is(e: Entry)
      reads this
    {
      key == e.key && users == e.users && gusers == e.gusers && synced == e.synced
    }
  }

  /** A list head together with its element count. */
  class List {
    var head: Node?
    var count: int
    ghost var nodes: seq<Node>      // the elements in order
    ghost var entries: seq<Entry>   // what they hold
    ghost var repr: set<Node>       // all elements the list has ever had

    constructor ()
      ensures Valid() && entries == [] && repr == {}
    {
      head, count, nodes, entries, repr := null, 0, [], [], {};
    }

    /** The chain of `next` pointers from `head` visits exactly `nodes`, which hold `entries` and
        which `count` counts. */
    ghost predicate Valid()
      reads this, repr
    {
      && count == |nodes| == |entries|
      && (forall i :: 0 <= i < |nodes| ==> nodes[i] in repr)
      && (forall i, j :: 0 <= i < j < |nodes| ==> nodes[i] != nodes[j])
      && head == NodeAt(0)
      && (forall i :: 0 <= i < |nodes| ==> nodes[i].next == NodeAt(i + 1))
      && (forall i :: 0 <= i < |nodes| ==> nodes[i].Is(entries[i]))
    }

    ghost function NodeAt(i: nat): Node?
      reads this
    {
      if i < |nodes| then nodes[i] else null
    }

    /** What the structure says about one position of the chain. */
    lemma At(i: nat)
      requires Valid() && i <= |nodes|
      ensures count == |nodes| == |entries| && head == NodeAt(0)
      ensures i < |nodes| ==> nodes[i] in repr && nodes[i].Is(entries[i]) && nodes[i].next == NodeAt(i + 1)
    {}

    /** The search loop of both functions: the first element for `key`, and the one before it. */
    method Locate(key: Key) returns (prev: Node?, da: Node?)
      requires Valid()
      ensures da == NodeAt(Find(entries, key))
      ensures prev == (if Find(entries, key) == 0 then null else nodes[Find(entries, key) - 1])
    {
      prev, da := null, head;
      ghost var i: nat := 0;
      while da != null && da.key != key
        invariant i <= |nodes| && da == NodeAt(i) && prev == (if i == 0 then null else nodes[i - 1])
        invariant forall j :: 0 <= j < i ==> entries[j].key != key
        decreases |nodes| - i
      {
        prev := da;
        da := da.next;
        i := i + 1;
      }
      if da != null {
        FindIs(entries, key, i);
      } else {
        FindNone(entries, key);
      }
    }

    /** Stores new counts and a new flag in element `i`. */
    method Put(da: Node, ghost i: nat, users: int, gusers: int, synced: bool)
      requires Valid() && i < |nodes| && da == nodes[i]
      modifies this`entries, da`users, da`gusers, da`synced
      ensures Valid() && entries == old(entries)[i := Entry(old(entries)[i].key, users, gusers, synced)]
    {
      da.users, da.gusers, da.synced := users, gusers, synced;
      entries := entries[i := Entry(entries[i].key, users, gusers, synced)];
    }

    /** Links a new element in at the front. */
    method Prepend(key: Key, gusers: int)
      requires Valid()
      modifies this
      ensures Valid() && entries == [Entry(key, 1, gusers, false)] + old(entries)
      ensures fresh(repr - old(repr)) && old(repr) <= repr
    {
      var n := new Node(key, 1, gusers, head);
      head := n;
      nodes := [n] + nodes;
      entries := [Entry(key, 1, gusers, false)] + entries;
      repr := repr + {n};
      count := count + 1;
    }

    /** Takes the first element out of the chain. */
    method UnlinkHead(da: Node)
      requires Valid() && |nodes| > 0 && da == nodes[0]
      modifies this`head, this`count, this`nodes, this`entries
      ensures Valid() && entries == old(entries)[1..] && nodes == old(nodes)[1..]
    {
      head := da.next;
      nodes, entries := nodes[1..], entries[1..];
      count := count - 1;
    }

    /** Takes element `i` out of the chain, behind another one. */
    method UnlinkBehind(prev: Node, da: Node, ghost i: nat)
      requires Valid() && 0 < i < |nodes| && da == nodes[i] && prev == nodes[i - 1]
      modifies this`count, this`nodes, this`entries, prev`next
      ensures Valid() && entries == Without(old(entries), i) && nodes == WithoutNode(old(nodes), i)
    {
      prev.next := da.next;
      nodes := WithoutNode(nodes, i);
      entries := Without(entries, i);
      count := count - 1;
      forall j | 0 <= j < |nodes|
        ensures nodes[j] in repr && nodes[j].next == NodeAt(j + 1) && nodes[j].Is(entries[j])
      {
        var k := if j < i then j else j + 1;
        assert nodes[j] == old(nodes)[k] && entries[j] == old(entries)[k];
      }
    }

    method Unlink(prev: Node?, da: Node, ghost i: nat)
      requires Valid() && i < |nodes| && da == nodes[i] && prev == (if i == 0 then null else nodes[i - 1])
      modifies this`head, this`count, this`nodes, this`entries, repr
      ensures Valid() && entries == Without(old(entries), i) && nodes == WithoutNode(old(nodes), i)
    {
      if prev == null {
        UnlinkHead(da);
        assert WithoutNode(old(nodes), 0) == nodes && Without(old(entries), 0) == entries;
      } else {
        UnlinkBehind(prev, da, i);
      }
    }

    /** One more user for an element that is there. */
    method AddUser(da: Node, ghost i: nat, glbl: bool)
      requires Valid() && i < |nodes| && da == nodes[i]
      modifies this`entries, da`users, da`gusers, da`synced
      ensures Valid() && entries == old(entries)[i := Added(old(entries)[i], glbl)]
    {
      hide Valid;
      At(i);
      if glbl {
        var oldGlbl := da.gusers;
        Put(da, i, da.users, 1, da.synced);
        At(i);
        if oldGlbl != 0 {
          return;
        }
      }
      Put(da, i, da.users + 1, da.gusers, da.synced);
    }

    /** `__dev_addr_add`. */
    method Add(key: Key, glbl: bool, granted: bool) returns (err: int)
      requires Valid()
      modifies this, repr
      ensures Valid() && (entries, err) == AddrSpec.Add(old(entries), key, glbl, granted)
      ensures fresh(repr - old(repr)) && old(repr) <= repr
    {
      var prev, da := Locate(key);
      if da != null {
        AddUser(da, Find(entries, key), glbl);
        return OK;
      }
      if !granted {
        return -ENOMEM;
      }
      Prepend(key, if glbl then 1 else 0);
      return OK;
    }

    /** One user less for an element that is there; the last one takes the element along. */
    method RemoveUser(prev: Node?, da: Node, ghost i: nat, gusers: int)
      requires Valid() && i < |nodes| && da == nodes[i] && prev == (if i == 0 then null else nodes[i - 1])
      modifies this`head, this`count, this`nodes, this`entries, repr
      ensures Valid()
      ensures var e := old(entries)[i].(users := old(entries)[i].users - 1, gusers := gusers);
              if e.users != 0 then entries == old(entries)[i := e] && nodes == old(nodes)
              else entries == Without(old(entries), i) && nodes == WithoutNode(old(nodes), i)
    {
      Put(da, i, da.users - 1, gusers, da.synced);
      if da.users != 0 {
        return;
      }
      ghost var e := entries[i];
      Unlink(prev, da, i);
      assert Without(old(entries)[i := e], i) == Without(old(entries), i);
    }

    /** `__dev_addr_delete`. A global deletion without a global user stops after storing a zero over
        a zero. */
    method Delete(key: Key, glbl: bool) returns (err: int)
      requires Valid()
      modifies this`head, this`count, this`nodes, this`entries, repr
      ensures Valid() && (entries, err) == AddrSpec.Delete(old(entries), key, glbl)
      ensures |entries| == |old(entries)| ==> nodes == old(nodes)
      ensures |entries| != |old(entries)| ==>
                Find(old(entries), key) < |old(nodes)| && nodes == WithoutNode(old(nodes), Find(old(entries), key))
    {
      var prev, da := Locate(key);
      if da == null || (glbl && da.gusers == 0) {
        return -ENOENT;
      }
      RemoveUser(prev, da, Find(entries, key), if glbl then 0 else da.gusers);
      return OK;
    }
  }

  function WithoutNode(s: seq<Node>, i: nat): (r: seq<Node>)
    requires i < |s|
    ensures |r| == |s| - 1
    ensures forall j :: 0 <= j < i ==> r[j] == s[j]
    ensures forall j :: i <= j < |r| ==> r[j] == s[j + 1]
  {
    s[..i] + s[i + 1..]
  }

  /** Two well-formed lists that share no element. */
  ghost predicate Apart(to: List, from: List)
    reads to, from, to.repr, from.repr
  {
    to != from && to.Valid() && from.Valid() && to.repr !! from.repr
  }

  lemma Unchanged(l: seq<Entry>, p: nat)
    requires p < |l|
    ensures l == l[..p] + [l[p]] + l[p + 1..]
  {}

  lemma Changed(l: seq<Entry>, p: nat, e: Entry)
    requires p < |l|
    ensures l[p := e] == l[..p] + [e] + l[p + 1..]
  {}

  /** An addition to one list leaves the other alone. */
  method AddBeside(to: List, from: List, key: Key, glbl: bool, granted: bool) returns (err: int)
    requires Apart(to, from)
    modifies to, to.repr
    ensures Apart(to, from) && fresh(to.repr - old(to.repr))
    ensures (to.entries, err) == AddrSpec.Add(old(to.entries), key, glbl, granted)
  {
    err := to.Add(key, glbl, granted);
  }

  /** So does a store into an element. */
  method PutBeside(to: List, from: List, da: Node, ghost p: nat, users: int, synced: bool)
    requires Apart(to, from) && p < |from.nodes| && da == from.nodes[p]
    modifies from`entries, da
    ensures Apart(to, from)
    ensures from.entries == old(from.entries)[p := old(from.entries)[p].(users := users, synced := synced)]
  {
    from.Put(da, p, users, da.gusers, synced);
  }

  /** A source element that is not synced yet gets an entry in the destination and is marked. */
  method HoldRound(to: List, from: List, da: Node, ghost p: nat, granted: bool) returns (err: int)
    requires Apart(to, from) && p < |from.nodes| && da == from.nodes[p] && !da.synced
    modifies to, to.repr, from`entries, da
    ensures Apart(to, from) && fresh(to.repr - old(to.repr))
    ensures (to.entries, err) == AddrSpec.Add(old(to.entries), old(from.entries)[p].key, false, granted)
    ensures from.entries == if err < 0 then old(from.entries)
                            else old(from.entries)[p := Marked(old(from.entries)[p])]
  {
    hide List.Valid;
    from.At(p);
    err := AddBeside(to, from, da.key, false, granted);
    from.At(p);
    if err >= 0 {
      PutBeside(to, from, da, p, da.users + 1, true);
    }
  }

  /** A source element without own users is taken out of both lists. */
  method DropRound(to: List, from: List, da: Node, ghost p: nat)
    requires Apart(to, from) && p < |from.nodes| && da == from.nodes[p] && da.users == 1 && Unique(from.entries)
    modifies to, to.repr, from`head, from`count, from`nodes, from`entries, from.repr
    ensures Apart(to, from) && fresh(to.repr - old(to.repr))
    ensures to.entries == AddrSpec.Delete(old(to.entries), old(from.entries)[p].key, false).0
    ensures from.entries == Without(old(from.entries), p) && from.nodes == WithoutNode(old(from.nodes), p)
  {
    hide List.Valid;
    from.At(p);
    var ignored := DeleteBeside(to, from, da.key, false);
    from.At(p);
    FindIs(from.entries, da.key, p);
    ignored := DeleteBeside(from, to, da.key, false);
  }

  /** One round of the loop of `__dev_addr_sync`, for element `p` of the source: what has become of
      the element is `kept`, and the chain goes on behind it. */
  method SyncRound(to: List, from: List, da: Node, ghost p: nat, granted: bool) returns (err: int, ghost kept: seq<Entry>)
    requires Apart(to, from) && p < |from.nodes| && da == from.nodes[p] && Unique(from.entries)
    modifies to, to.repr, from`head, from`count, from`nodes, from`entries, from.repr
    ensures Apart(to, from) && fresh(to.repr - old(to.repr))
    ensures (to.entries, kept, err) == SyncOne(old(to.entries), old(from.entries)[p], granted)
    ensures from.entries == old(from.entries)[..p] + kept + old(from.entries)[p + 1..]
    ensures from.NodeAt(p + |kept|) == old(from.NodeAt(p + 1))
  {
    hide List.Valid, Unique, Find, AddrSpec.Add, AddrSpec.Delete;
    from.At(p);
    ghost var l := from.entries;
    err, kept := OK, [l[p]];
    Unchanged(l, p);
    if !da.synced {
      err := HoldRound(to, from, da, p, granted);
      if err >= 0 {
        kept := [Marked(l[p])];
        Changed(l, p, Marked(l[p]));
      }
    } else if da.users == 1 {
      DropRound(to, from, da, p);
      kept := [];
      assert Without(l, p) == l[..p] + [] + l[p + 1..];
    }
  }

  /** The pass after some rounds: what it still has to do on the rest of the source. */
  lemma SyncUnfold(to: seq<Entry>, rest: seq<Entry>, mem: nat)
    requires rest != []
    ensures var (to', kept, err) := SyncOne(to, rest[0], mem > 0);
            var left := if NeedsMemory(to, rest[0]) && mem > 0 then mem - 1 else mem;
            AddrSpec.Sync(to, rest, mem)
            == if err < 0 then (to', kept + rest[1..], err)
               else var (t, r, e) := AddrSpec.Sync(to', rest[1..], left); (t, kept + r, e)
  {}

  /** `done` is what has become of the elements before, and the pass gives `goal` if it goes on
      with `rest`. */
  ghost predicate SyncGoes(goal: (seq<Entry>, seq<Entry>, int), to: seq<Entry>, done: seq<Entry>, rest: seq<Entry>,
                           mem: nat)
  {
    var (t, r, e) := AddrSpec.Sync(to, rest, mem);
    goal == (t, done + r, e)
  }

  lemma SyncGoesOn(goal: (seq<Entry>, seq<Entry>, int), to: seq<Entry>, done: seq<Entry>, rest: seq<Entry>, mem: nat)
    requires SyncGoes(goal, to, done, rest, mem) && rest != []
    ensures var (to', kept, err) := SyncOne(to, rest[0], mem > 0);
            var left := if NeedsMemory(to, rest[0]) && mem > 0 then mem - 1 else mem;
            if err < 0 then goal == (to', done + kept + rest[1..], err)
            else SyncGoes(goal, to', done + kept, rest[1..], left)
  {
    SyncUnfold(to, rest, mem);
    var (to', kept, err) := SyncOne(to, rest[0], mem > 0);
    var left := if NeedsMemory(to, rest[0]) && mem > 0 then mem - 1 else mem;
    if err < 0 {
      Associate(done, kept, rest[1..]);
    } else {
      Associate(done, kept, AddrSpec.Sync(to', rest[1..], left).1);
    }
  }

  lemma StillUnique(done: seq<Entry>, e: Entry, kept: seq<Entry>, rest: seq<Entry>)
    requires Unique(done + [e] + rest)
    requires kept == [] || (|kept| == 1 && kept[0].key == e.key)
    ensures Unique(done + kept + rest)
  {
    var l, l' := done + [e] + rest, done + kept + rest;
    assert l[|done|] == e;
    if kept == [] {
      assert l' == Without(l, |done|);
    } else {
      assert l' == l[|done| := kept[0]];
    }
  }

  lemma Parts(l: seq<Entry>, p: nat, kept: seq<Entry>)
    requires p < |l|
    ensures l[..p] + [l[p]] + l[p + 1..] == l
    ensures l[p..][1..] == l[p + 1..] && l[p..][0] == l[p]
    ensures (l[..p] + kept + l[p + 1..])[..p + |kept|] == l[..p] + kept
    ensures (l[..p] + kept + l[p + 1..])[p + |kept|..] == l[p + 1..]
  {}

  /** The same for a source that is kept in one list: `p` elements are done. */
  ghost predicate SyncAt(goal: (seq<Entry>, seq<Entry>, int), to: seq<Entry>, from: seq<Entry>, p: nat, mem: nat) {
    p <= |from| && Unique(from) && SyncGoes(goal, to, from[..p], from[p..], mem)
  }

  lemma SyncStarts(to: seq<Entry>, from: seq<Entry>, mem: nat)
    requires Unique(from)
    ensures SyncAt(AddrSpec.Sync(to, from, mem), to, from, 0, mem)
  {
    assert from[..0] == [] && from[0..] == from;
    var r := AddrSpec.Sync(to, from, mem).1;
    assert [] + r == r;
  }

  lemma SyncEnds(goal: (seq<Entry>, seq<Entry>, int), to: seq<Entry>, from: seq<Entry>, mem: nat)
    requires SyncAt(goal, to, from, |from|, mem)
    ensures goal == (to, from, OK)
  {
    assert from[..|from|] + [] == from;
  }

  lemma SyncNext(goal: (seq<Entry>, seq<Entry>, int), to: seq<Entry>, from: seq<Entry>, p: nat, mem: nat)
    requires SyncAt(goal, to, from, p, mem) && p < |from|
    ensures var (to', kept, err) := SyncOne(to, from[p], mem > 0);
            var from' := from[..p] + kept + from[p + 1..];
            var left := if |to'| > |to| then mem - 1 else mem;
            Unique(from') && left >= 0 && (err < 0 || err == OK) &&
            if err < 0 then goal == (to', from', err) else SyncAt(goal, to', from', p + |kept|, left)
  {
    var (to', kept, err) := SyncOne(to, from[p], mem > 0);
    SyncGoesOn(goal, to, from[..p], from[p..], mem);
    Parts(from, p, kept);
    StillUnique(from[..p], from[p], kept, from[p + 1..]);
  }

  /** The loop of `__dev_addr_sync` is at element `da`, the source's element number `p`. */
  ghost predicate SyncHere(goal: (seq<Entry>, seq<Entry>, int), to: List, from: List, da: Node?, p: nat, left: nat)
    reads to, from, to.repr, from.repr
  {
    && Apart(to, from) && Unique(from.entries)
    && p <= |from.nodes| && da == from.NodeAt(p)
    && SyncAt(goal, to.entries, from.entries, p, left)
  }

  lemma SyncBegins(to: List, from: List, mem: nat)
    requires Apart(to, from) && Unique(from.entries)
    ensures SyncHere(AddrSpec.Sync(to.entries, from.entries, mem), to, from, from.head, 0, mem)
  {
    hide List.Valid, SyncAt, AddrSpec.Sync, Unique;
    from.At(0);
    SyncStarts(to.entries, from.entries, mem);
  }

  lemma SyncStops(goal: (seq<Entry>, seq<Entry>, int), to: List, from: List, p: nat, left: nat)
    requires SyncHere(goal, to, from, null, p, left)
    ensures Apart(to, from) && goal == (to.entries, from.entries, OK)
  {
    hide List.Valid, SyncAt, Unique;
    from.At(p);
    SyncEnds(goal, to.entries, from.entries, left);
  }

  method SyncStep(to: List, from: List, da: Node, left: nat, ghost p: nat, ghost goal: (seq<Entry>, seq<Entry>, int))
    returns (err: int, next: Node?, left': nat, ghost p': nat)
    requires SyncHere(goal, to, from, da, p, left)
    modifies to, to.repr, from`head, from`count, from`nodes, from`entries, from.repr
    ensures fresh(to.repr - old(to.repr)) && (err < 0 || err == OK)
    ensures err < 0 ==> Apart(to, from) && goal == (to.entries, from.entries, err)
    ensures err == OK ==> SyncHere(goal, to, from, next, p', left')
    ensures err == OK ==> 0 <= |from.nodes| - p' < old(|from.nodes|) - p
  {
    hide List.Valid, SyncAt, SyncOne, AddrSpec.Sync, Unique, Find;
    from.At(p);
    to.At(0);
    var size := to.count;
    next := da.next;
    SyncNext(goal, to.entries, from.entries, p, left);
    ghost var kept;
    err, kept := SyncRound(to, from, da, p, left > 0);
    from.At(0);
    to.At(0);
    left' := if to.count > size then left - 1 else left;
    p' := p + |kept|;
  }

  /** `__dev_addr_sync`; the first `mem` allocations succeed. */
  method Sync(to: List, from: List, mem: nat) returns (err: int)
    requires Apart(to, from) && Unique(from.entries)
    modifies to, to.repr, from`head, from`count, from`nodes, from`entries, from.repr
    ensures Apart(to, from) && fresh(to.repr - old(to.repr))
    ensures (to.entries, from.entries, err) == AddrSpec.Sync(old(to.entries), old(from.entries), mem)
  {
    hide Apart, SyncHere, AddrSpec.Sync, Unique;
    var da, left := from.head, mem;
    err := OK;
    ghost var p: nat := 0;
    ghost var goal := AddrSpec.Sync(to.entries, from.entries, mem);
    SyncBegins(to, from, mem);
    while da != null
      invariant SyncHere(goal, to, from, da, p, left) && fresh(to.repr - old(to.repr)) && err == OK
      invariant p <= |from.nodes|
      decreases |from.nodes| - p
    {
      err, da, left, p := SyncStep(to, from, da, left, p, goal);
      if err < 0 {
        return;
      }
    }
    SyncStops(goal, to, from, p, left);
  }

  // ----- unsync -----

  /** One round of the loop of `__dev_addr_unsync`. */
  method UnsyncRound(to: List, from: List, da: Node, ghost p: nat) returns (ghost kept: seq<Entry>)
    requires Apart(to, from) && p < |from.nodes| && da == from.nodes[p] && Unique(from.entries)
    modifies to, to.repr, from`head, from`count, from`nodes, from`entries, from.repr
    ensures Apart(to, from) && fresh(to.repr - old(to.repr))
    ensures (to.entries, kept) == UnsyncOne(old(to.entries), old(from.entries)[p])
    ensures from.entries == old(from.entries)[..p] + kept + old(from.entries)[p + 1..]
    ensures from.NodeAt(p + |kept|) == old(from.NodeAt(p + 1))
  {
    hide List.Valid;
    from.At(p);
    ghost var l := from.entries;
    kept := [l[p]];
    Unchanged(l, p);
    if da.synced {
      ReleaseRound(to, from, da, p);
      if l[p].users == 1 {
        kept := [];
        assert Without(l, p) == l[..p] + [] + l[p + 1..];
      } else {
        kept := [l[p].(synced := false, users := l[p].users - 1)];
        Changed(l, p, kept[0]);
      }
    }
  }

  /** The synchronisation gives up its hold in both lists. */
  method ReleaseRound(to: List, from: List, da: Node, ghost p: nat)
    requires Apart(to, from) && p < |from.nodes| && da == from.nodes[p] && Unique(from.entries)
    modifies to, to.repr, from`head, from`count, from`nodes, from`entries, from.repr
    ensures Apart(to, from) && fresh(to.repr - old(to.repr))
    ensures to.entries == AddrSpec.Delete(old(to.entries), old(from.entries)[p].key, false).0
    ensures var e := old(from.entries)[p].(synced := false, users := old(from.entries)[p].users - 1);
            if e.users == 0 then from.entries == Without(old(from.entries), p) && from.nodes == WithoutNode(old(from.nodes), p)
            else from.entries == old(from.entries)[p := e] && from.nodes == old(from.nodes)
  {
    hide List.Valid;
    from.At(p);
    var ignored := DeleteBeside(to, from, da.key, false);
    from.At(p);
    PutBeside(to, from, da, p, da.users, false);
    ghost var l := from.entries;
    from.At(p);
    FindIs(l, da.key, p);
    ignored := DeleteBeside(from, to, da.key, false);
    assert Without(l, p) == Without(old(from.entries), p);
  }

  /** A removal from one list leaves the other alone. */
  method DeleteBeside(to: List, from: List, key: Key, glbl: bool) returns (err: int)
    requires Apart(to, from)
    modifies to`head, to`count, to`nodes, to`entries, to.repr
    ensures Apart(to, from)
    ensures (to.entries, err) == AddrSpec.Delete(old(to.entries), key, glbl)
    ensures |to.entries| == |old(to.entries)| ==> to.nodes == old(to.nodes)
    ensures |to.entries| != |old(to.entries)| ==>
              Find(old(to.entries), key) < |old(to.nodes)| && to.nodes == WithoutNode(old(to.nodes), Find(old(to.entries), key))
  {
    err := to.Delete(key, glbl);
  }

  ghost predicate UnsyncAt(goal: (seq<Entry>, seq<Entry>), to: seq<Entry>, from: seq<Entry>, p: nat) {
    && p <= |from| && Unique(from)
    && var (t, r) := AddrSpec.Unsync(to, from[p..]);
       goal == (t, from[..p] + r)
  }

  lemma UnsyncStarts(to: seq<Entry>, from: seq<Entry>)
    requires Unique(from)
    ensures UnsyncAt(AddrSpec.Unsync(to, from), to, from, 0)
  {
    assert from[0..] == from;
    var r := AddrSpec.Unsync(to, from).1;
    assert from[..0] + r == r;
  }

  lemma UnsyncEnds(goal: (seq<Entry>, seq<Entry>), to: seq<Entry>, from: seq<Entry>)
    requires UnsyncAt(goal, to, from, |from|)
    ensures goal == (to, from)
  {
    assert from[..|from|] + [] == from;
  }

  lemma UnsyncNext(goal: (seq<Entry>, seq<Entry>), to: seq<Entry>, from: seq<Entry>, p: nat)
    requires UnsyncAt(goal, to, from, p) && p < |from|
    ensures var (to', kept) := UnsyncOne(to, from[p]);
            Unique(from[..p] + kept + from[p + 1..]) && UnsyncAt(goal, to', from[..p] + kept + from[p + 1..], p + |kept|)
  {
    var (to', kept) := UnsyncOne(to, from[p]);
    Parts(from, p, kept);
    StillUnique(from[..p], from[p], kept, from[p + 1..]);
    Associate(from[..p], kept, AddrSpec.Unsync(to', from[p + 1..]).1);
  }

  /** `__dev_addr_unsync`. */
  method Unsync(to: List, from: List)
    requires Apart(to, from) && Unique(from.entries)
    modifies to, to.repr, from`head, from`count, from`nodes, from`entries, from.repr
    ensures Apart(to, from) && fresh(to.repr - old(to.repr))
    ensures (to.entries, from.entries) == AddrSpec.Unsync(old(to.entries), old(from.entries))
  {
    hide List.Valid, UnsyncAt, UnsyncOne, AddrSpec.Unsync;
    from.At(0);
    var da := from.head;
    ghost var p: nat := 0;
    ghost var goal := AddrSpec.Unsync(to.entries, from.entries);
    UnsyncStarts(to.entries, from.entries);
    while da != null
      invariant Apart(to, from) && fresh(to.repr - old(to.repr))
      invariant p <= |from.nodes| && da == from.NodeAt(p)
      invariant Unique(from.entries) && UnsyncAt(goal, to.entries, from.entries, p)
      decreases |from.nodes| - p
    {
      from.At(p);
      var next := da.next;
      UnsyncNext(goal, to.entries, from.entries, p);
      ghost var kept := UnsyncRound(to, from, da, p);
      from.At(0);
      da := next;
      p := p + |kept|;
    }
    from.At(0);
    UnsyncEnds(goal, to.entries, from.entries);
  }

  // ----- runs on the linked lists -----

  /** The lists are those of the world, and their counts are their lengths. */
  ghost predicate Represents(to: List, from: List, w: World)
    reads to, from, to.repr, from.repr
  {
    && Apart(to, from) && Inv(w)
    && to.entries == w.to && from.entries == w.from
    && to.count == |w.to| && from.count == |w.from|
  }

  /** The list part of a world, once both lists are well formed. */
  lemma Represented(to: List, from: List, w: World)
    requires Apart(to, from) && Inv(w) && to.entries == w.to && from.entries == w.from
    ensures Represents(to, from, w)
  {}

  /** One call on the two lists is one step of the world. */
  method Perform(to: List, from: List, a: Action, ghost w: World) returns (err: int)
    requires Represents(to, from, w) && Legal(w, a)
    modifies to, to.repr, from, from.repr
    ensures Represents(to, from, Step(w, a)) && err == Result(w, a)
    ensures fresh(to.repr - old(to.repr)) && fresh(from.repr - old(from.repr))
  {
    hide List.Valid, Inv, AddrSpec.Add, AddrSpec.Delete, AddrSpec.Sync, AddrSpec.Unsync;
    StepKeeps(w, a);
    SourceUnique(w);
    match a {
      case AddTo(key, glbl, granted) => err := AddBeside(to, from, key, glbl, granted);
      case DeleteTo(key, glbl) => err := DeleteBeside(to, from, key, glbl);
      case AddFrom(key, glbl, granted) => err := AddBeside(from, to, key, glbl, granted);
      case DeleteFrom(key, glbl) => err := DeleteBeside(from, to, key, glbl);
      case SyncPass(mem) => err := Sync(to, from, mem);
      case UnsyncPass =>
        Unsync(to, from);
        err := OK;
    }
    Represented(to, from, Step(w, a));
  }

  lemma SourceUnique(w: World)
    requires Inv(w)
    ensures Unique(w.from)
  {}

  /** Callers keep to their part of the protocol all along. */
  ghost predicate LegalRun(w: World, actions: seq<Action>) {
    forall i :: 0 <= i < |actions| ==> Legal(Exec(w, actions[..i]), actions[i])
  }

  /** Any run of calls on two linked lists is that run of the world: both lists, all results, and the
      balance at the end. */
  method Run(to: List, from: List, actions: seq<Action>, ghost w: World) returns (errs: seq<int>)
    requires Represents(to, from, w) && LegalRun(w, actions)
    modifies to, to.repr, from, from.repr
    ensures Represents(to, from, Exec(w, actions))
    ensures |errs| == |actions|
    ensures forall i :: 0 <= i < |actions| ==> errs[i] == Result(Exec(w, actions[..i]), actions[i])
    ensures fresh(to.repr - old(to.repr)) && fresh(from.repr - old(from.repr))
  {
    hide Represents, Legal, Step, Result;
    errs := [];
    assert actions[..0] == [];
    for n := 0 to |actions|
      invariant Represents(to, from, Exec(w, actions[..n])) && |errs| == n
      invariant forall i :: 0 <= i < n ==> errs[i] == Result(Exec(w, actions[..i]), actions[i])
      invariant fresh(to.repr - old(to.repr)) && fresh(from.repr - old(from.repr))
    {
      var err := Perform(to, from, actions[n], Exec(w, actions[..n]));
      errs := errs + [err];
      assert actions[..n + 1][..n] == actions[..n];
    }
    assert actions[..|actions|] == actions;
  }

  /** The same from two new lists. */
  method RunFromEmpty(actions: seq<Action>) returns (to: List, from: List, errs: seq<int>)
    requires LegalRun(World([], [], map[], map[]), actions)
    ensures Represents(to, from, Exec(World([], [], map[], map[]), actions)) && |errs| == |actions|
    ensures fresh(to) && fresh(from) && fresh(to.repr) && fresh(from.repr)
  {
    to := new List();
    from := new List();
    ghost var w := World([], [], map[], map[]);
    EveryRunKeeps([]);
    Represented(to, from, w);
    errs := Run(to, from, actions, w);
  }

  /** A successful sync and then an unsync, from a source with nothing synced, leave both linked lists with
      the entries and the counts they had. */
  method SyncAndBack(to: List, from: List, mem: nat) returns (err: int)
    requires Apart(to, from) && Unique(to.entries) && InUse(to.entries) && Unique(from.entries) && InUse(from.entries)
    requires forall i :: 0 <= i < |from.entries| ==> !from.entries[i].synced
    modifies to, to.repr, from, from.repr
    ensures Apart(to, from) && fresh(to.repr - old(to.repr)) && fresh(from.repr - old(from.repr))
    ensures err == AddrSpec.Sync(old(to.entries), old(from.entries), mem).2
    ensures err == OK ==> to.entries == old(to.entries) && from.entries == old(from.entries)
    ensures err == OK ==> to.count == old(to.count) && from.count == old(from.count)
  {
    hide List.Valid, AddrSpec.Sync, AddrSpec.Unsync, InUse;
    to.At(0);
    from.At(0);
    ghost var t, f := to.entries, from.entries;
    err := Sync(to, from, mem);
    if err != OK {
      return;
    }
    UnsyncUndoesSync(t, f, mem);
    SyncedUnique(t, f, mem);
    Unsync(to, from);
    to.At(0);
    from.At(0);
  }
}
