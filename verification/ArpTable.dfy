/**
  The ARP table (c/ethlib/arp.c): eight slots that together are a map from IP
  addresses to MAC addresses.
 */
module ArpTable {
  import opened Bytes
  import opened EthFrames

  const ARP_TABLE_SIZE: nat := 8

  datatype Entry = Entry(used: bool, ip: Ip, mac: Mac)

  predicate Matches(e: Entry, ip: Ip) { e.used && e.ip == ip }

  // ---- The table as a sequence of slots ---------------------------------

  /** What a search finds: the first matching slot. */
  ghost function Lookup(t: seq<Entry>, ip: Ip): Option<Mac> {
    if t == [] then None
    else if Matches(t[0], ip) then Some(t[0].mac)
    else Lookup(t[1..], ip)
  }

  ghost function Cleared(t: seq<Entry>, ip: Ip): (r: seq<Entry>)
    ensures |r| == |t|
  {
    seq(|t|, i requires 0 <= i < |t| => if Matches(t[i], ip) then t[i].(used := false) else t[i])
  }

  /** The slot a new entry goes to: the first free one, slot 0 when there is none. */
  ghost function Slot(t: seq<Entry>, i: nat): nat
    requires i <= |t|
    decreases |t| - i
  {
    if i == |t| then 0 else if !t[i].used then i else Slot(t, i + 1)
  }

  ghost predicate Full(t: seq<Entry>) { forall e <- t :: e.used }

  ghost predicate Unique(t: seq<Entry>) {
    forall i, j :: 0 <= i < j < |t| && t[i].used && t[j].used ==> t[i].ip != t[j].ip
  }

  ghost function Inserted(t: seq<Entry>, ip: Ip, mac: Mac): (r: seq<Entry>)
    requires |t| > 0
    ensures |r| == |t|
  {
    var c := Cleared(t, ip);
    SlotBound(c, 0);
    c[Slot(c, 0) := Entry(true, ip, mac)]
  }

  lemma {:induction false} SlotBound(t: seq<Entry>, i: nat)
    requires i <= |t| && |t| > 0 && forall k :: 0 <= k < i ==> t[k].used
    ensures Slot(t, i) < |t| && (t[Slot(t, i)].used ==> Slot(t, i) == 0 && Full(t))
    ensures Full(t) ==> Slot(t, i) == 0
    decreases |t| - i
  {
    if i < |t| && t[i].used { SlotBound(t, i + 1); }
  }

  // ---- Lookups as slots -------------------------------------------------

  lemma {:induction false} LookupFinds(t: seq<Entry>, ip: Ip, i: nat)
    requires Unique(t) && i < |t| && Matches(t[i], ip)
    ensures Lookup(t, ip) == Some(t[i].mac)
    decreases |t|
  {
    if i > 0 {
      assert !Matches(t[0], ip);
      UniqueTail(t);
      assert t[1..][i - 1] == t[i];
      LookupFinds(t[1..], ip, i - 1);
    }
  }

  lemma {:induction false} LookupMisses(t: seq<Entry>, ip: Ip)
    requires forall e <- t :: !Matches(e, ip)
    ensures Lookup(t, ip) == None
    decreases |t|
  {
    if t != [] { LookupMisses(t[1..], ip); }
  }

  lemma UniqueTail(t: seq<Entry>)
    requires Unique(t) && t != []
    ensures Unique(t[1..])
  {
    var s := t[1..];
    forall i, j | 0 <= i < j < |s| && s[i].used && s[j].used ensures s[i].ip != s[j].ip {
      assert s[i] == t[i + 1] && s[j] == t[j + 1];
    }
  }

  /** Two duplicate-free tables agree on an address when their matching slots do. */
  lemma SameLookup(t: seq<Entry>, r: seq<Entry>, ip: Ip)
    requires Unique(t) && Unique(r) && |r| == |t|
    requires forall i :: 0 <= i < |t| ==> (Matches(t[i], ip) <==> Matches(r[i], ip)) && (Matches(t[i], ip) ==> t[i] == r[i])
    ensures Lookup(r, ip) == Lookup(t, ip)
  {
    if i :| 0 <= i < |t| && Matches(t[i], ip) {
      LookupFinds(t, ip, i);
      LookupFinds(r, ip, i);
    } else {
      LookupMisses(t, ip);
      LookupMisses(r, ip);
    }
  }

  lemma ClearedKeeps(t: seq<Entry>, ip: Ip)
    requires Unique(t)
    ensures Unique(Cleared(t, ip)) && (forall e <- Cleared(t, ip) :: !Matches(e, ip))
    ensures forall other: Ip :: other != ip ==> Lookup(Cleared(t, ip), other) == Lookup(t, other)
  {
    var c := Cleared(t, ip);
    forall other: Ip | other != ip ensures Lookup(c, other) == Lookup(t, other) { SameLookup(t, c, other); }
  }

  /** The entry is found, the table stays free of duplicates, and no other lookup changes,
      except that a full table loses the entry of slot 0. */
  lemma InsertMeans(t: seq<Entry>, ip: Ip, mac: Mac)
    requires Unique(t) && |t| > 0
    ensures var r := Inserted(t, ip, mac);
            && Unique(r) && Lookup(r, ip) == Some(mac)
            && forall other: Ip :: other != ip ==>
                 Lookup(r, other) == if Full(Cleared(t, ip)) && t[0].ip == other then None else Lookup(t, other)
  {
    var c := Cleared(t, ip);
    var r := Inserted(t, ip, mac);
    ClearedKeeps(t, ip);
    SlotBound(c, 0);
    LookupFinds(r, ip, Slot(c, 0));
    forall other: Ip | other != ip
      ensures Lookup(r, other) == if Full(c) && t[0].ip == other then None else Lookup(t, other)
    {
      InsertOther(c, r, Slot(c, 0), other);
    }
  }

  lemma InsertOther(c: seq<Entry>, r: seq<Entry>, k: nat, other: Ip)
    requires Unique(c) && Unique(r) && k < |c| == |r| && r == c[k := r[k]] && !Matches(r[k], other)
    ensures Lookup(r, other) == if Matches(c[k], other) then None else Lookup(c, other)
  {
    if Matches(c[k], other) {
      LookupMisses(r, other);
    } else {
      SameLookup(c, r, other);
    }
  }

  // ---- Runs -------------------------------------------------------------

  datatype Operation = Insert(ip: Ip, mac: Mac) | Delete(ip: Ip)

  ghost function Apply(t: seq<Entry>, op: Operation): (r: seq<Entry>)
    requires |t| > 0
    ensures |r| == |t|
  {
    match op
    case Insert(ip, mac) => Inserted(t, ip, mac)
    case Delete(ip) => Cleared(t, ip)
  }

  ghost function ApplyAll(t: seq<Entry>, ops: seq<Operation>): (r: seq<Entry>)
    requires |t| > 0
    ensures |r| == |t|
  {
    if ops == [] then t else Apply(ApplyAll(t, ops[..|ops| - 1]), ops[|ops| - 1])
  }

  /** From an empty table, no run ever holds an address twice. */
  lemma {:induction false} NeverDuplicate(t: seq<Entry>, ops: seq<Operation>)
    requires |t| > 0 && forall e <- t :: !e.used
    ensures Unique(ApplyAll(t, ops))
    decreases |ops|
  {
    if ops != [] {
      NeverDuplicate(t, ops[..|ops| - 1]);
      var before := ApplyAll(t, ops[..|ops| - 1]);
      match ops[|ops| - 1]
      case Insert(ip, mac) => InsertMeans(before, ip, mac);
      case Delete(ip) => ClearedKeeps(before, ip);
    }
  }

  // ---- The table itself -------------------------------------------------

  class Table {
    const entries: array<Entry>

    ghost predicate Valid() { entries.Length == ARP_TABLE_SIZE }

    /** arp_table_init */
    constructor ()
      ensures Valid() && fresh(entries) && forall e <- entries[..] :: !e.used
    {
      entries := new Entry[ARP_TABLE_SIZE](_ => Entry(false, [0, 0, 0, 0], [0, 0, 0, 0, 0, 0]));
    }

    /** arp_table_search */
    method Search(ip: Ip) returns (r: Option<Mac>)
      requires Valid()
      ensures r == Lookup(entries[..], ip)
    {
      ghost var t := entries[..];
      for i := 0 to ARP_TABLE_SIZE
        invariant Lookup(t[i..], ip) == Lookup(t, ip)
      {
        if Matches(entries[i], ip) { return Some(entries[i].mac); }
        assert t[i..][1..] == t[i + 1..];
      }
      return None;
    }

    /** arp_table_delete_entry */
    method Delete(ip: Ip) returns (removed: bool)
      requires Valid()
      modifies entries
      ensures entries[..] == Cleared(old(entries[..]), ip)
      ensures removed <==> old(exists e <- entries[..] :: Matches(e, ip))
    {
      removed := false;
      ghost var t := entries[..];
      for i := 0 to ARP_TABLE_SIZE
        invariant forall k :: 0 <= k < ARP_TABLE_SIZE ==> entries[k] == if k < i then Cleared(t, ip)[k] else t[k]
        invariant removed <==> exists e <- t[..i] :: Matches(e, ip)
      {
        assert t[..i + 1] == t[..i] + [t[i]];
        if Matches(entries[i], ip) {
          entries[i] := entries[i].(used := false);
          removed := true;
        }
      }
      assert t[..ARP_TABLE_SIZE] == t;
    }

    /** The search for a slot, with the bound tested before the slot is read. */
    method FreeSlot() returns (i: nat)
      requires Valid()
      ensures i == Slot(entries[..], 0)
      ensures i < ARP_TABLE_SIZE
    {
      i := 0;
      while i < ARP_TABLE_SIZE && entries[i].used
        invariant i <= ARP_TABLE_SIZE && Slot(entries[..], 0) == Slot(entries[..], i)
      {
        i := i + 1;
      }
      if i == ARP_TABLE_SIZE { i := 0; }
    }

    /** arp_table_new_entry */
    method NewEntry(ip: Ip, mac: Mac)
      requires Valid()
      modifies entries
      ensures entries[..] == Inserted(old(entries[..]), ip, mac)
    {
      ghost var t := entries[..];
      var previous := Search(ip);
      if previous.Some? {
        var _ := Delete(ip);
      } else {
        NothingToClear(t, ip);
      }
      var i := FreeSlot();
      entries[i] := Entry(true, ip, mac);
    }
  }

  lemma {:induction false} NothingToClear(t: seq<Entry>, ip: Ip)
    requires Lookup(t, ip) == None
    ensures (forall e <- t :: !Matches(e, ip)) && Cleared(t, ip) == t
    decreases |t|
  {
    if t != [] {
      NothingToClear(t[1..], ip);
      forall e | e in t ensures !Matches(e, ip) {
        if e != t[0] { assert e in t[1..]; }
      }
    }
  }
}
