/** The balancer's address list: an array-backed slice edited in place while the picker shares it. */
module Balancers {
  import opened Wrappers

  datatype Address = Address(addr: string, metadata: int)

  datatype Op = AddOp | DeleteOp | UnknownOp

  datatype Update = Update(op: Op, address: Address)

  // ----- what updates mean -----

  function IndexOf(list: seq<Address>, a: Address): (i: nat)
    ensures i <= |list|
    ensures i < |list| ==> list[i] == a
    ensures forall k | 0 <= k < i :: list[k] != a
  {
    if list == [] then 0 else if list[0] == a then 0 else 1 + IndexOf(list[1..], a)
  }

  function Without(list: seq<Address>, i: nat): seq<Address>
    requires i < |list|
  {
    list[..i] + list[i + 1..]
  }

  function Apply(list: seq<Address>, u: Update): seq<Address> {
    var i := IndexOf(list, u.address);
    match u.op
    case AddOp => if i < |list| then list else list + [u.address]
    case DeleteOp => if i < |list| then Without(list, i) else list
    case UnknownOp => list
  }

  function ApplyAll(list: seq<Address>, us: seq<Update>): seq<Address> {
    if us == [] then list else Apply(ApplyAll(list, us[..|us| - 1]), us[|us| - 1])
  }

  /** The same updates on a plain set. */
  function Fold(s: set<Address>, us: seq<Update>): set<Address> {
    if us == [] then s
    else
      var t := Fold(s, us[..|us| - 1]);
      var u := us[|us| - 1];
      match u.op
      case AddOp => t + {u.address}
      case DeleteOp => t - {u.address}
      case UnknownOp => t
  }

  predicate Distinct(list: seq<Address>) {
    forall i, j | 0 <= i < j < |list| :: list[i] != list[j]
  }

  function Elements(list: seq<Address>): set<Address> {
    set i | 0 <= i < |list| :: list[i]
  }

  lemma IsWithout(out: seq<Address>, list: seq<Address>, i: nat)
    requires i < |list| && |out| == |list| - 1
    requires forall j | 0 <= j < |out| :: out[j] == list[if j < i then j else j + 1]
    ensures out == Without(list, i)
  {}

  predicate Deletes(u: Update, a: Address) {
    u.op == DeleteOp && u.address == a
  }

  predicate Spares(us: seq<Update>, a: Address) {
    forall i | 0 <= i < |us| :: !Deletes(us[i], a)
  }

  lemma WithoutElements(list: seq<Address>, i: nat)
    requires Distinct(list) && i < |list|
    ensures Distinct(Without(list, i)) && Elements(Without(list, i)) == Elements(list) - {list[i]}
  {
    var out := Without(list, i);
    assert forall k | 0 <= k < |out| :: out[k] == if k < i then list[k] else list[k + 1];
    forall a | a in Elements(list) - {list[i]} ensures a in Elements(out) {
      var k :| 0 <= k < |list| && list[k] == a;
      assert out[if k < i then k else k - 1] == a;
    }
  }

  lemma AppendElements(list: seq<Address>, a: Address)
    ensures Elements(list + [a]) == Elements(list) + {a}
  {
    var out := list + [a];
    assert out[|list|] == a;
    forall x | x in Elements(list) ensures x in Elements(out) {
      var k :| 0 <= k < |list| && list[k] == x;
      assert out[k] == x;
    }
  }

  lemma ApplyElements(list: seq<Address>, u: Update)
    requires Distinct(list)
    ensures Distinct(Apply(list, u)) && Elements(Apply(list, u)) == Fold(Elements(list), [u])
  {
    var i := IndexOf(list, u.address);
    assert Fold(Elements(list), [][..0]) == Elements(list) && [u][..0] == [];
    if i < |list| {
      assert list[i] in Elements(list);
      WithoutElements(list, i);
    } else {
      AppendElements(list, u.address);
    }
  }

  /** Any stream of updates leaves a list without duplicates that is the fold of the updates as a set. */
  lemma {:induction false} ApplyAllElements(list: seq<Address>, us: seq<Update>)
    requires Distinct(list)
    ensures Distinct(ApplyAll(list, us)) && Elements(ApplyAll(list, us)) == Fold(Elements(list), us)
  {
    if us != [] {
      var n := |us| - 1;
      ApplyAllElements(list, us[..n]);
      var before := ApplyAll(list, us[..n]);
      ApplyElements(before, us[n]);
      assert [us[n]][..0] == [];
      assert Fold(Elements(before), []) == Elements(before);
    }
  }

  lemma ApplyMore(list: seq<Address>, us: seq<Update>, i: nat)
    requires i < |us|
    ensures ApplyAll(list, us[..i + 1]) == Apply(ApplyAll(list, us[..i]), us[i])
  {
    assert us[..i + 1][..i] == us[..i];
  }

  lemma {:induction false} ApplyAllSplit(list: seq<Address>, us: seq<Update>, vs: seq<Update>)
    ensures ApplyAll(list, us + vs) == ApplyAll(ApplyAll(list, us), vs)
  {
    if vs == [] {
      assert us + vs == us;
    } else {
      var n := |vs| - 1;
      assert (us + vs)[..|us| + n] == us + vs[..n];
      ApplyAllSplit(list, us, vs[..n]);
    }
  }

  function Flatten(batches: seq<seq<Update>>): seq<Update> {
    if batches == [] then [] else Flatten(batches[..|batches| - 1]) + batches[|batches| - 1]
  }

  function RunBatches(list: seq<Address>, batches: seq<seq<Update>>): seq<Address> {
    if batches == [] then list
    else ApplyAll(RunBatches(list, batches[..|batches| - 1]), batches[|batches| - 1])
  }

  lemma {:induction false} BatchesFlatten(list: seq<Address>, batches: seq<seq<Update>>)
    ensures RunBatches(list, batches) == ApplyAll(list, Flatten(batches))
  {
    if batches != [] {
      var n := |batches| - 1;
      BatchesFlatten(list, batches[..n]);
      ApplyAllSplit(list, Flatten(batches[..n]), batches[n]);
    }
  }

  /** After any batches from the start: no duplicates, and as a set the fold of all updates. */
  lemma BatchesFold(batches: seq<seq<Update>>)
    ensures Distinct(RunBatches([], batches))
    ensures Elements(RunBatches([], batches)) == Fold({}, Flatten(batches))
  {
    BatchesFlatten([], batches);
    ApplyAllElements([], Flatten(batches));
    assert Elements([]) == {};
  }

  // ----- the class -----

  class AddressInfo {
    const address: Address
    var connected: bool

    constructor (address: Address)
      ensures this.address == address && !connected
    {
      this.address, connected := address, false;
    }
  }

  /** A list from which the entry at `i` was cut. */
  lemma CutKeeps(out: seq<AddressInfo>, infos: seq<AddressInfo>, i: nat)
    requires i < |infos| && |out| == |infos| - 1
    requires forall j | 0 <= j < |out| :: out[j] == infos[if j < i then j else j + 1]
    ensures forall x | x in out :: x in infos
    ensures forall x | x in infos && x != infos[i] :: x in out
  {
    forall x | x in infos && x != infos[i] ensures x in out {
      var k :| 0 <= k < |infos| && infos[k] == x;
      assert out[if k < i then k else k - 1] == x;
    }
  }

  function AddressesOf(infos: seq<AddressInfo>): (r: seq<Address>)
    ensures |r| == |infos| && forall i | 0 <= i < |infos| :: r[i] == infos[i].address
  {
    seq(|infos|, i requires 0 <= i < |infos| => infos[i].address)
  }

  function CountTrue(flags: seq<bool>): nat {
    if flags == [] then 0 else CountTrue(flags[..|flags| - 1]) + if flags[|flags| - 1] then 1 else 0
  }

  lemma CountStep(flags: seq<bool>, i: nat)
    requires i < |flags|
    ensures CountTrue(flags[..i + 1]) == CountTrue(flags[..i]) + if flags[i] then 1 else 0
  {
    assert flags[..i + 1][..i] == flags[..i];
  }

  /** The connected flags once an address is up. */
  function Raised(flags: seq<bool>, list: seq<Address>, a: Address): (r: seq<bool>)
    requires |flags| == |list|
    ensures |r| == |list| && forall k | 0 <= k < |list| :: r[k] <==> flags[k] || list[k] == a
  {
    seq(|list|, k requires 0 <= k < |list| => flags[k] || list[k] == a)
  }

  /** The loop that raises an address has passed `i` entries, `cnt` of them connected now. */
  ghost predicate RaisedTo(was: seq<bool>, list: seq<Address>, a: Address, i: nat, flags: seq<bool>, cnt: nat) {
    && |was| == |list| == |flags| && i <= |list|
    && (forall k | 0 <= k < |list| :: flags[k] == if k < i then was[k] || list[k] == a else was[k])
    && (forall k | 0 <= k < i && list[k] == a :: !was[k])
    && cnt == CountTrue(flags[..i])
  }

  lemma RaisedStep(
    was: seq<bool>, list: seq<Address>, a: Address, i: nat, flags: seq<bool>, cnt: nat, flags': seq<bool>)
    requires RaisedTo(was, list, a, i, flags, cnt) && i < |list| && !(list[i] == a && flags[i])
    requires flags' == if list[i] == a then flags[i := true] else flags
    ensures RaisedTo(was, list, a, i + 1, flags', cnt + if flags'[i] then 1 else 0)
  {
    CountStep(flags', i);
    assert flags'[..i] == flags[..i];
  }

  lemma RaisedEnd(was: seq<bool>, list: seq<Address>, a: Address, flags: seq<bool>, cnt: nat)
    requires RaisedTo(was, list, a, |list|, flags, cnt)
    ensures flags == Raised(was, list, a) && cnt == CountTrue(flags)
  {
    assert flags[..|list|] == flags;
  }

  lemma RaisedFound(was: seq<bool>, list: seq<Address>, a: Address, i: nat, flags: seq<bool>, cnt: nat)
    requires RaisedTo(was, list, a, i, flags, cnt) && Distinct(list) && i < |list| && list[i] == a && flags[i]
    ensures flags == flags[i := true] == Raised(was, list, a) && was[i]
  {
    assert forall k | 0 <= k < |list| && list[k] == a :: k == i;
  }

  /** A slice: a prefix of an array that others may share. */
  datatype Slice = Slice(data: array<AddressInfo?>, len: nat)

  class Balancer {
    var addrs: Slice
    var picker: Slice
    var done: bool
    var slot: Option<seq<Address>>  // the one-slot address channel
    var channelClosed: bool
    var waiting: bool               // waitCh is not nil

    /** The slice is well formed and holds no nil. */
    ghost predicate Shaped()
      reads this, addrs.data
    {
      addrs.len <= addrs.data.Length && forall i | 0 <= i < addrs.len :: addrs.data[i] != null
    }

    /** The entries in order. */
    ghost function Infos(): (r: seq<AddressInfo>)
      requires Shaped()
      reads this, addrs.data
      ensures |r| == addrs.len && forall i | 0 <= i < addrs.len :: r[i] == addrs.data[i]
    {
      addrs.data[..addrs.len]
    }

    ghost function List(): (r: seq<Address>)
      requires Shaped()
      reads this, addrs.data
      ensures |r| == addrs.len && forall i | 0 <= i < addrs.len :: r[i] == addrs.data[i].address
    {
      AddressesOf(Infos())
    }

    /** Which entries are connected. */
    ghost function Connected(): (r: seq<bool>)
      requires Shaped()
      reads this, addrs.data, Infos()
      ensures |r| == addrs.len
    {
      var infos := Infos();
      seq(|infos|, i requires 0 <= i < |infos| reads infos => infos[i].connected)
    }

    /** Until the close: no duplicates, the picker shares the list, and the channel holds nothing or the list. */
    ghost predicate Valid()
      reads this, addrs.data
    {
      && Shaped() && Distinct(List())
      && (!done ==> picker == addrs && (slot.Some? ==> slot.value == List()))
      && (done <==> channelClosed)
    }

    constructor ()
      ensures Valid() && List() == [] && !done && slot == None && !waiting
      ensures fresh(addrs.data)
    {
      var empty := new AddressInfo?[0];
      addrs := Slice(empty, 0);
      picker := Slice(empty, 0);
      done, slot, channelClosed, waiting := false, None, false, false;
    }

    /** The search that both cases of an update make. */
    method Search(a: Address) returns (i: nat)
      requires Shaped()
      ensures i == IndexOf(List(), a)
    {
      i := 0;
      while i < addrs.len
        invariant i <= addrs.len && forall k | 0 <= k < i :: addrs.data[k].address != a
      {
        if addrs.data[i].address == a {
          return;
        }
        i := i + 1;
      }
    }

    /** `append`: in place while there is room, else into a larger array. */
    method Append(info: AddressInfo)
      requires Shaped()
      modifies this`addrs, addrs.data
      ensures Shaped() && Infos() == old(Infos()) + [info]
      ensures addrs.data == old(addrs.data) || fresh(addrs.data)
    {
      var n := addrs.len;
      if n == addrs.data.Length {
        var data := new AddressInfo?[2 * n + 1];
        var k := 0;
        while k < n
          invariant k <= n && addrs == old(addrs)
          invariant forall j | 0 <= j < k :: data[j] == addrs.data[j]
          invariant forall j | 0 <= j < n :: addrs.data[j] == old(addrs.data[j])
        {
          data[k] := addrs.data[k];
          k := k + 1;
        }
        data[n] := info;
        addrs := Slice(data, n + 1);
      } else {
        addrs.data[n] := info;
        addrs := addrs.(len := n + 1);
      }
    }

    /** Copies the tail one place down over position `i` and shortens the slice. */
    method CutAt(i: nat)
      requires Shaped() && i < addrs.len
      modifies this`addrs, addrs.data
      ensures Shaped() && addrs == old(addrs).(len := old(addrs.len) - 1)
      ensures forall j | 0 <= j < addrs.len :: Infos()[j] == old(Infos())[if j < i then j else j + 1]
    {
      var n := addrs.len;
      var k := i;
      while k < n - 1
        invariant i <= k <= n - 1 && addrs == old(addrs)
        invariant forall j | 0 <= j < i :: addrs.data[j] == old(addrs.data[j])
        invariant forall j | i <= j < k :: addrs.data[j] == old(addrs.data[j + 1])
        invariant forall j | k <= j < n :: addrs.data[j] == old(addrs.data[j])
      {
        addrs.data[k] := addrs.data[k + 1];
        k := k + 1;
      }
      addrs := addrs.(len := n - 1);
    }

    method AddAddress(a: Address)
      requires Shaped()
      modifies this`addrs, addrs.data
      ensures Shaped() && List() == Apply(old(List()), Update(AddOp, a))
      ensures addrs.data == old(addrs.data) || fresh(addrs.data)
      ensures old(Infos()) <= Infos()
      ensures forall x | x in Infos() :: x in old(Infos()) || (fresh(x) && !x.connected)
    {
      var i := Search(a);
      if i == addrs.len {
        var info := new AddressInfo(a);
        Append(info);
        assert List() == old(List()) + [a];
      }
    }

    method DeleteAddress(a: Address)
      requires Shaped()
      modifies this`addrs, addrs.data
      ensures Shaped() && List() == Apply(old(List()), Update(DeleteOp, a)) && addrs.data == old(addrs.data)
      ensures forall x | x in Infos() :: x in old(Infos())
      ensures forall x | x in old(Infos()) && x.address != a :: x in Infos()
    {
      ghost var was := Infos();
      var i := Search(a);
      if i < addrs.len {
        CutAt(i);
        IsWithout(List(), old(List()), i);
        CutKeeps(Infos(), was, i);
      }
    }

    method ApplyUpdate(update: Update)
      requires Shaped()
      modifies this`addrs, addrs.data
      ensures Shaped() && List() == Apply(old(List()), update)
      ensures addrs.data == old(addrs.data) || fresh(addrs.data)
      ensures forall x | x in Infos() :: x in old(Infos()) || (fresh(x) && !x.connected)
      ensures forall x | x in old(Infos()) && !Deletes(update, x.address) :: x in Infos()
    {
      match update.op {
        case AddOp => AddAddress(update.address);
        case DeleteOp => DeleteAddress(update.address);
        case UnknownOp =>
      }
    }

    /** The loop over a batch. */
    method ApplyUpdates(updates: seq<Update>)
      requires Shaped()
      modifies this`addrs, addrs.data
      ensures Shaped() && List() == ApplyAll(old(List()), updates)
      ensures addrs.data == old(addrs.data) || fresh(addrs.data)
      ensures forall x | x in Infos() :: x in old(Infos()) || (fresh(x) && !x.connected)
      ensures forall x | x in old(Infos()) && Spares(updates, x.address) :: x in Infos()
    {
      ghost var list := List();
      for i := 0 to |updates|
        invariant Shaped() && List() == ApplyAll(list, updates[..i])
        invariant addrs.data == old(addrs.data) || fresh(addrs.data)
        invariant forall x | x in Infos() :: x in old(Infos()) || (fresh(x) && !x.connected)
        invariant forall x | x in old(Infos()) && Spares(updates, x.address) :: x in Infos()
      {
        ApplyMore(list, updates, i);
        ApplyUpdate(updates[i]);
      }
      assert updates[..|updates|] == updates;
    }

    /** Copies the addresses out. */
    method Open() returns (open: seq<Address>)
      requires Shaped()
      ensures open == List()
    {
      open := [];
      for i := 0 to addrs.len
        invariant |open| == i && forall k | 0 <= k < i :: open[k] == addrs.data[k].address
      {
        open := open + [addrs.data[i].address];
      }
    }

    /**
     * One round of the watch loop. `next` is what the resolver's watcher returned, `None` for its error. Publishing
     * empties the slot first, so the send never blocks, and leaves only the newest list there.
     */
    method WatchAddrUpdates(next: Option<seq<Update>>) returns (ok: bool)
      requires Valid()
      modifies this`addrs, this`slot, this`picker, addrs.data
      ensures Valid()
      ensures ok <==> next.Some? && !done
      ensures List() == if next.Some? then ApplyAll(old(List()), next.value) else old(List())
      ensures slot == if ok then Some(List()) else old(slot)
      ensures addrs.data == old(addrs.data) || fresh(addrs.data)
      // an entry that the updates do not delete stays the same object, and the other entries are new and down
      ensures forall x | x in old(Infos()) && (next.Some? ==> Spares(next.value, x.address)) :: x in Infos()
      ensures forall x | x in Infos() :: x in old(Infos()) || (fresh(x) && !x.connected)
    {
      if next.None? {
        return false;
      }
      ApplyAllElements(List(), next.value);
      ApplyUpdates(next.value);
      var open := Open();
      if done {
        return false;
      }
      if slot.Some? {
        slot := None;
      }
      assert slot.None? && !channelClosed;
      slot := Some(open);
      picker := addrs;
      return true;
    }

    /** The consumer of the address channel. */
    method Receive() returns (r: Option<seq<Address>>)
      requires Valid()
      modifies this`slot
      ensures Valid() && r == old(slot) && slot == None
      ensures r.Some? && !done ==> r.value == List()
    {
      r := slot;
      slot := None;
    }

    /** Marks an address connected; wakes the waiters when it is the only one. False stands for the nil function. */
    method Up(address: Address) returns (ok: bool)
      requires Valid()
      modifies this`waiting, Infos()
      ensures Valid() && Infos() == old(Infos())
      ensures ok <==> forall i | 0 <= i < addrs.len && List()[i] == address :: !old(Connected())[i]
      ensures Connected() == Raised(old(Connected()), List(), address)
      ensures waiting == (old(waiting) && !(ok && CountTrue(Connected()) == 1))
    {
      var cnt;
      ok, cnt := MarkUp(address);
      if ok && cnt == 1 && waiting {
        waiting := false;
      }
    }

    /** The loop of `Up`, with its count of connected entries. */
    method MarkUp(address: Address) returns (ok: bool, cnt: nat)
      requires Shaped() && Distinct(List())
      modifies Infos()
      ensures Infos() == old(Infos())
      ensures ok <==> forall i | 0 <= i < addrs.len && List()[i] == address :: !old(Connected())[i]
      ensures Connected() == Raised(old(Connected()), List(), address)
      ensures ok ==> cnt == CountTrue(Connected())
    {
      ghost var was, list := Connected(), List();
      ok, cnt := true, 0;
      for i := 0 to addrs.len
        invariant ok && Infos() == old(Infos()) && RaisedTo(was, list, address, i, Connected(), cnt)
      {
        ghost var flags := Connected();
        var found, up := MarkAt(i, address);
        if found {
          RaisedFound(was, list, address, i, flags, cnt);
          return false, cnt;
        }
        RaisedStep(was, list, address, i, flags, cnt, Connected());
        if up {
          cnt := cnt + 1;
        }
      }
      RaisedEnd(was, list, address, Connected(), cnt);
    }

    /** One turn of the loop: `found` if the address was connected before, `up` if the entry is connected now. */
    method MarkAt(i: nat, address: Address) returns (found: bool, up: bool)
      requires Shaped() && Distinct(List()) && i < addrs.len
      modifies addrs.data[i]
      ensures Infos() == old(Infos()) && (found <==> List()[i] == address && old(Connected())[i])
      ensures Connected() == if List()[i] == address then old(Connected())[i := true] else old(Connected())
      ensures up == Connected()[i]
    {
      found := false;
      if addrs.data[i].address == address {
        if addrs.data[i].connected {
          return true, true;
        }
        Connect(i);
      }
      up := addrs.data[i].connected;
    }

    /** Sets one flag; the entries are different objects, so no other flag moves. */
    method Connect(i: nat)
      requires Shaped() && Distinct(List()) && i < addrs.len
      modifies addrs.data[i]
      ensures Infos() == old(Infos()) && Connected() == old(Connected())[i := true]
    {
      assert forall k | 0 <= k < addrs.len && k != i :: List()[k] != List()[i];
      addrs.data[i].connected := true;
    }

    /** Marks an address disconnected. */
    method Down(address: Address)
      requires Valid()
      modifies Infos()
      ensures Valid() && Infos() == old(Infos())
      ensures forall i | 0 <= i < addrs.len :: Connected()[i] <==> old(Connected())[i] && List()[i] != address
    {
      var i := Search(address);
      assert forall k | 0 <= k < addrs.len && k != i && i < addrs.len :: List()[k] != List()[i];
      if i < addrs.len {
        addrs.data[i].connected := false;
      }
    }

    /** Closes the channels, once; false stands for the error of a second close. */
    method Close() returns (ok: bool)
      requires Valid()
      modifies this`done, this`waiting, this`channelClosed
      ensures Valid() && done && List() == old(List()) && (ok <==> !old(done))
      ensures waiting == (old(waiting) && !ok)
    {
      if done {
        return false;
      }
      done := true;
      waiting := false;
      assert !channelClosed;
      channelClosed := true;
      return true;
    }
  }
}
