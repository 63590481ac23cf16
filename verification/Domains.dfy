/**
 The domains table of src/db.rs: host names with provenance, and the seeder
 that reconciles them with the configured list.
 */
module Domains {
  import opened Common
  import opened Text

  type Id = int
  type Time = int

  datatype Source = Config | Manual

  datatype Domain = Domain(id: Id, hostname: string, organization: Id, source: Source, createdAt: Time)

  /** The rows in the order of their ids. */
  datatype Table = Table(rows: seq<Domain>, nextId: Id)

  // ---------------------------------------------------------------------
  // Canonical host names
  // ---------------------------------------------------------------------

  /** Rust's `strip_suffix('.')`, once. */
  function StripDot(s: string): string {
    if s != "" && s[|s| - 1] == '.' then s[..|s| - 1] else s
  }

  function NormalizeHostname(raw: string): string {
    Lowercase(StripDot(Trim(raw)))
  }

  /** A name that is its own canonical shape. */
  predicate IsCanonical(hostname: string) {
    NormalizeHostname(hostname) == hostname
  }

  // ---------------------------------------------------------------------
  // The statements
  // ---------------------------------------------------------------------

  function IndexOf(rows: seq<Domain>, hostname: string): (r: Option<nat>)
    ensures r.Some? ==> r.value < |rows| && rows[r.value].hostname == hostname
    ensures r.None? ==> forall i :: 0 <= i < |rows| ==> rows[i].hostname != hostname
  {
    if rows == [] then None
    else if rows[|rows| - 1].hostname == hostname then Some(|rows| - 1)
    else IndexOf(rows[..|rows| - 1], hostname)
  }

  function Lookup(rows: seq<Domain>, hostname: string): Option<Domain> {
    match IndexOf(rows, hostname)
    case None => None
    case Some(i) => Some(rows[i])
  }

  /**
   `INSERT ... ON CONFLICT (hostname) DO UPDATE`: claims the name for the
   organization. The insert takes an id before it finds the conflict.
   */
  function Upsert(t: Table, hostname: string, organization: Id, now: Time): Table {
    match IndexOf(t.rows, hostname)
    case Some(i) =>
      Table(t.rows[i := t.rows[i].(organization := organization, source := Config)], t.nextId + 1)
    case None => Table(t.rows + [Domain(t.nextId, hostname, organization, Config, now)], t.nextId + 1)
  }

  /** The configured names, as the table spells them. */
  predicate IsNamed(hosts: seq<string>, hostname: string) {
    exists i :: 0 <= i < |hosts| && NormalizeHostname(hosts[i]) == hostname
  }

  /** One round of the seeder's first loop; without the CMS organization it inserts nothing. */
  function SeedHost(t: Table, raw: string, cms: Option<Id>, now: Time): Table {
    var hostname := NormalizeHostname(raw);
    if hostname == "" || cms.None? then t else Upsert(t, hostname, cms.value, now)
  }

  function SeedHosts(t: Table, hosts: seq<string>, cms: Option<Id>, now: Time): Table {
    if hosts == [] then t
    else SeedHost(SeedHosts(t, hosts[..|hosts| - 1], cms, now), hosts[|hosts| - 1], cms, now)
  }

  predicate IsKept(r: Domain, hosts: seq<string>) {
    r.source == Manual || IsNamed(hosts, r.hostname)
  }

  /** The rows the second loop leaves. */
  function Kept(rows: seq<Domain>, hosts: seq<string>): seq<Domain> {
    if rows == [] then []
    else Kept(rows[..|rows| - 1], hosts) + if IsKept(rows[|rows| - 1], hosts) then [rows[|rows| - 1]] else []
  }

  /** The rows when the second loop has looked at the first `i`. */
  function Reconciled(listed: seq<Domain>, i: nat, hosts: seq<string>): seq<Domain>
    requires i <= |listed|
  {
    Kept(listed[..i], hosts) + listed[i..]
  }

  function Seed(t: Table, hosts: seq<string>, cms: Option<Id>, now: Time): Table {
    var seeded := SeedHosts(t, hosts, cms, now);
    seeded.(rows := Kept(seeded.rows, hosts))
  }

  predicate IncreasingIds(rows: seq<Domain>) {
    forall i, j :: 0 <= i < j < |rows| ==> rows[i].id < rows[j].id
  }

  predicate UniqueNames(rows: seq<Domain>) {
    forall i, j :: 0 <= i < j < |rows| ==> rows[i].hostname != rows[j].hostname
  }

  /** What the schema guarantees: increasing ids that are never reused, and unique names. */
  predicate WellFormed(t: Table) {
    && (forall i :: 0 <= i < |t.rows| ==> t.rows[i].id < t.nextId)
    && IncreasingIds(t.rows)
    && UniqueNames(t.rows)
  }

  function DeleteId(rows: seq<Domain>, id: Id): seq<Domain> {
    if rows == [] then []
    else DeleteId(rows[..|rows| - 1], id) + if rows[|rows| - 1].id == id then [] else [rows[|rows| - 1]]
  }

  class DomainTable {
    var rows: seq<Domain>
    var nextId: Id

    ghost function Contents(): Table
      reads this
    {
      Table(rows, nextId)
    }

    ghost predicate Valid()
      reads this
    {
      WellFormed(Contents())
    }

    constructor ()
      ensures Valid() && Contents() == Table([], 1)
    {
      rows, nextId := [], 1;
    }

    method Claim(hostname: string, organization: Id, now: Time)
      requires Valid()
      modifies this
      ensures Valid() && Contents() == Upsert(old(Contents()), hostname, organization, now)
    {
      UpsertKeepsSchema(Contents(), hostname, organization, now);
      var found := IndexOf(rows, hostname);
      if found.Some? {
        rows := rows[found.value := rows[found.value].(organization := organization, source := Config)];
      } else {
        rows := rows + [Domain(nextId, hostname, organization, Config, now)];
      }
      nextId := nextId + 1;
    }

    /** The first loop: claims every configured name. */
    method ClaimHosts(hosts: seq<string>, cms: Option<Id>, now: Time)
      requires Valid()
      modifies this
      ensures Valid() && Contents() == SeedHosts(old(Contents()), hosts, cms, now)
    {
      for i := 0 to |hosts|
        invariant Valid() && Contents() == SeedHosts(old(Contents()), hosts[..i], cms, now)
      {
        assert hosts[..i + 1][..i] == hosts[..i];
        var hostname := NormalizeHostname(hosts[i]);
        if hostname == "" {
          continue;
        }
        if cms.Some? {
          Claim(hostname, cms.value, now);
        }
      }
      assert hosts[..|hosts|] == hosts;
    }

    /** The second loop: drops the config rows, as they stood before it, that are not named. */
    method PruneConfigured(hosts: seq<string>)
      requires Valid()
      modifies this`rows
      ensures Valid() && Contents() == old(Contents()).(rows := Kept(old(rows), hosts))
    {
      KeptKeepsSchema(Contents(), hosts);
      PruneListed(rows, hosts);
    }

    method PruneListed(listed: seq<Domain>, hosts: seq<string>)
      requires rows == listed && IncreasingIds(listed)
      modifies this`rows
      ensures rows == Kept(listed, hosts)
    {
      PruningBegins(listed, hosts);
      for i := 0 to |listed|
        invariant rows == Reconciled(listed, i, hosts)
      {
        PruningStep(listed, i, hosts);
        if listed[i].source == Config && !IsNamed(hosts, listed[i].hostname) {
          rows := DeleteId(rows, listed[i].id);
        }
      }
      PruningEnds(listed, hosts);
    }

    method SeedDomains(hosts: seq<string>, cms: Option<Id>, now: Time)
      requires Valid()
      modifies this
      ensures Valid() && Contents() == Seed(old(Contents()), hosts, cms, now)
    {
      ClaimHosts(hosts, cms, now);
      PruneConfigured(hosts);
    }
  }

  // ---------------------------------------------------------------------
  // One statement
  // ---------------------------------------------------------------------

  lemma UpsertKeepsSchema(t: Table, hostname: string, organization: Id, now: Time)
    requires WellFormed(t)
    ensures WellFormed(Upsert(t, hostname, organization, now))
  {
  }

  /** Unique names make the lookup exact. */
  lemma LookupIs(rows: seq<Domain>, i: nat)
    requires i < |rows| && UniqueNames(rows)
    ensures Lookup(rows, rows[i].hostname) == Some(rows[i])
  {
    var j := IndexOf(rows, rows[i].hostname).value;
    assert rows[j].hostname == rows[i].hostname;
    assert j == i;
  }

  lemma LookupIsNone(rows: seq<Domain>, name: string)
    requires forall i :: 0 <= i < |rows| ==> rows[i].hostname != name
    ensures Lookup(rows, name) == None
  {
  }

  lemma UpsertFindsIt(t: Table, hostname: string, organization: Id, now: Time)
    requires WellFormed(t)
    ensures Lookup(Upsert(t, hostname, organization, now).rows, hostname) ==
            match Lookup(t.rows, hostname)
            case Some(r) => Some(r.(organization := organization, source := Config))
            case None => Some(Domain(t.nextId, hostname, organization, Config, now))
  {
    UpsertKeepsSchema(t, hostname, organization, now);
    match IndexOf(t.rows, hostname)
    case Some(i) => LookupIs(Upsert(t, hostname, organization, now).rows, i);
    case None => LookupIs(Upsert(t, hostname, organization, now).rows, |t.rows|);
  }

  lemma UpsertLeavesOthers(t: Table, hostname: string, organization: Id, now: Time, name: string)
    requires WellFormed(t) && name != hostname
    ensures Lookup(Upsert(t, hostname, organization, now).rows, name) == Lookup(t.rows, name)
  {
    var rows := Upsert(t, hostname, organization, now).rows;
    UpsertKeepsSchema(t, hostname, organization, now);
    match IndexOf(t.rows, name)
    case Some(i) =>
      assert rows[i] == t.rows[i];
      LookupIs(rows, i);
    case None =>
      LookupIsNone(rows, name);
  }

  lemma {:induction false} KeptIsPart(rows: seq<Domain>, hosts: seq<string>)
    ensures forall i :: 0 <= i < |Kept(rows, hosts)| ==>
              Kept(rows, hosts)[i] in rows && IsKept(Kept(rows, hosts)[i], hosts)
    ensures forall i :: 0 <= i < |rows| && IsKept(rows[i], hosts) ==> rows[i] in Kept(rows, hosts)
  {
    if rows != [] {
      KeptIsPart(rows[..|rows| - 1], hosts);
    }
  }

  lemma AppendKeepsSchema(rows: seq<Domain>, r: Domain)
    requires IncreasingIds(rows) && UniqueNames(rows)
    requires forall k :: k in rows ==> k.id < r.id && k.hostname != r.hostname
    ensures IncreasingIds(rows + [r]) && UniqueNames(rows + [r])
  {
  }

  lemma PrefixKeepsSchema(rows: seq<Domain>)
    requires rows != [] && IncreasingIds(rows) && UniqueNames(rows)
    ensures var init, r := rows[..|rows| - 1], rows[|rows| - 1];
            && IncreasingIds(init) && UniqueNames(init)
            && forall k :: k in init ==> k.id < r.id && k.hostname != r.hostname
  {
  }

  lemma {:induction false} KeptStaysUnique(rows: seq<Domain>, hosts: seq<string>)
    requires IncreasingIds(rows) && UniqueNames(rows)
    ensures IncreasingIds(Kept(rows, hosts)) && UniqueNames(Kept(rows, hosts))
    decreases |rows|
  {
    if rows != [] {
      var init, r := rows[..|rows| - 1], rows[|rows| - 1];
      PrefixKeepsSchema(rows);
      KeptStaysUnique(init, hosts);
      KeptIsPart(init, hosts);
      if IsKept(r, hosts) {
        AppendKeepsSchema(Kept(init, hosts), r);
      } else {
        assert Kept(rows, hosts) == Kept(init, hosts);
      }
    }
  }

  lemma KeptKeepsSchema(t: Table, hosts: seq<string>)
    requires WellFormed(t)
    ensures WellFormed(t.(rows := Kept(t.rows, hosts)))
  {
    KeptStaysUnique(t.rows, hosts);
    KeptIsPart(t.rows, hosts);
  }

  lemma KeptLookup(t: Table, hosts: seq<string>, name: string)
    requires WellFormed(t)
    ensures Lookup(Kept(t.rows, hosts), name) ==
            match Lookup(t.rows, name)
            case Some(r) => if IsKept(r, hosts) then Some(r) else None
            case None => None
  {
    var kept := Kept(t.rows, hosts);
    KeptIsPart(t.rows, hosts);
    KeptKeepsSchema(t, hosts);
    if i :| 0 <= i < |kept| && kept[i].hostname == name {
      LookupIs(kept, i);
      var j :| 0 <= j < |t.rows| && t.rows[j] == kept[i];
      LookupIs(t.rows, j);
    } else {
      LookupIsNone(kept, name);
      forall r | r in t.rows && r.hostname == name ensures !IsKept(r, hosts) {
        assert IsKept(r, hosts) ==> r in kept;
      }
    }
  }

  lemma {:induction false} DeleteAbsent(rows: seq<Domain>, id: Id)
    requires forall i :: 0 <= i < |rows| ==> rows[i].id != id
    ensures DeleteId(rows, id) == rows
  {
    if rows != [] {
      DeleteAbsent(rows[..|rows| - 1], id);
    }
  }

  lemma DeleteLast(rows: seq<Domain>, r: Domain, id: Id)
    ensures DeleteId(rows + [r], id) == DeleteId(rows, id) + if r.id == id then [] else [r]
  {
    assert (rows + [r])[..|rows|] == rows;
  }

  lemma {:induction false} DeleteConcat(a: seq<Domain>, b: seq<Domain>, id: Id)
    ensures DeleteId(a + b, id) == DeleteId(a, id) + DeleteId(b, id)
    decreases |b|
  {
    if b == [] {
      assert a + b == a;
    } else {
      var init, last := b[..|b| - 1], b[|b| - 1];
      DeleteConcat(a, init, id);
      assert a + b == (a + init) + [last];
      DeleteLast(a + init, last, id);
      Associate(DeleteId(a, id), DeleteId(init, id), if last.id == id then [] else [last]);
    }
  }

  /** The rows kept so far, and those after the `i`-th, have other ids. */
  lemma OthersHaveOtherIds(listed: seq<Domain>, i: nat, hosts: seq<string>)
    requires i < |listed| && IncreasingIds(listed)
    ensures DeleteId(Kept(listed[..i], hosts), listed[i].id) == Kept(listed[..i], hosts)
    ensures DeleteId(listed[i + 1..], listed[i].id) == listed[i + 1..]
  {
    var kept, id := Kept(listed[..i], hosts), listed[i].id;
    KeptIsPart(listed[..i], hosts);
    forall j | 0 <= j < |kept| ensures kept[j].id != id {
      var k :| 0 <= k < i && listed[..i][k] == kept[j];
    }
    DeleteAbsent(kept, id);
    DeleteAbsent(listed[i + 1..], id);
  }

  lemma SplitAt(listed: seq<Domain>, i: nat)
    requires i < |listed|
    ensures listed[i..] == [listed[i]] + listed[i + 1..]
    ensures listed[..i + 1][..i] == listed[..i]
  {
  }

  lemma DeleteSingle(r: Domain)
    ensures DeleteId([r], r.id) == []
  {
    assert [r][..0] == [];
    assert DeleteId([r][..0], r.id) == [];
  }

  lemma DropsThis(listed: seq<Domain>, i: nat, hosts: seq<string>)
    requires i < |listed| && IncreasingIds(listed) && !IsKept(listed[i], hosts)
    ensures DeleteId(Kept(listed[..i], hosts) + listed[i..], listed[i].id)
         == Kept(listed[..i + 1], hosts) + listed[i + 1..]
  {
    SplitAt(listed, i);
    OthersHaveOtherIds(listed, i, hosts);
    DeleteConcat(Kept(listed[..i], hosts), listed[i..], listed[i].id);
    DeleteConcat([listed[i]], listed[i + 1..], listed[i].id);
    DeleteSingle(listed[i]);
  }

  lemma PruningBegins(listed: seq<Domain>, hosts: seq<string>)
    ensures Reconciled(listed, 0, hosts) == listed
  {
    assert listed[..0] == [] && listed[0..] == listed;
  }

  lemma PruningStep(listed: seq<Domain>, i: nat, hosts: seq<string>)
    requires i < |listed| && IncreasingIds(listed)
    ensures Reconciled(listed, i + 1, hosts)
         == if IsKept(listed[i], hosts) then Reconciled(listed, i, hosts)
            else DeleteId(Reconciled(listed, i, hosts), listed[i].id)
  {
    if IsKept(listed[i], hosts) {
      SplitAt(listed, i);
      Associate(Kept(listed[..i], hosts), [listed[i]], listed[i + 1..]);
    } else {
      DropsThis(listed, i, hosts);
    }
  }

  lemma PruningEnds(listed: seq<Domain>, hosts: seq<string>)
    ensures Reconciled(listed, |listed|, hosts) == Kept(listed, hosts)
  {
    assert listed[..|listed|] == listed;
  }

  // ---------------------------------------------------------------------
  // The whole seeder
  // ---------------------------------------------------------------------

  lemma IsNamedAppend(hosts: seq<string>, raw: string, name: string)
    ensures IsNamed(hosts + [raw], name) <==> IsNamed(hosts, name) || NormalizeHostname(raw) == name
  {
    var all := hosts + [raw];
    if IsNamed(hosts, name) {
      var i :| 0 <= i < |hosts| && NormalizeHostname(hosts[i]) == name;
      assert all[i] == hosts[i];
    }
    if NormalizeHostname(raw) == name {
      assert all[|hosts|] == raw;
    }
  }

  /** The row of `name` after the first loop: claimed for `cms` if it is named, untouched otherwise. */
  predicate RowIsSeeded(t: Table, after: Table, name: string, named: bool, cms: Id, now: Time) {
    && t.nextId <= after.nextId
    && if name != "" && named then
         match Lookup(t.rows, name)
         case Some(r) => Lookup(after.rows, name) == Some(r.(organization := cms, source := Config))
         case None =>
           && Lookup(after.rows, name).Some?
           && var r := Lookup(after.rows, name).value;
              t.nextId <= r.id && r == Domain(r.id, name, cms, Config, now)
       else Lookup(after.rows, name) == Lookup(t.rows, name)
  }

  lemma SeedHostSeeds(t: Table, before: Table, raw: string, name: string, named: bool, cms: Id, now: Time)
    requires WellFormed(before) && RowIsSeeded(t, before, name, named, cms, now)
    ensures WellFormed(SeedHost(before, raw, Some(cms), now))
    ensures RowIsSeeded(t, SeedHost(before, raw, Some(cms), now), name,
                        named || NormalizeHostname(raw) == name, cms, now)
  {
    var hostname := NormalizeHostname(raw);
    if hostname != "" {
      UpsertKeepsSchema(before, hostname, cms, now);
      if name == hostname {
        UpsertFindsIt(before, hostname, cms, now);
      } else {
        UpsertLeavesOthers(before, hostname, cms, now, name);
      }
    }
  }

  /** What the first loop does to each name. */
  lemma {:induction false} SeedHostsLookup(t: Table, hosts: seq<string>, cms: Id, now: Time, name: string)
    requires WellFormed(t)
    ensures WellFormed(SeedHosts(t, hosts, Some(cms), now))
    ensures RowIsSeeded(t, SeedHosts(t, hosts, Some(cms), now), name, IsNamed(hosts, name), cms, now)
    decreases |hosts|
  {
    if hosts != [] {
      var init, raw := hosts[..|hosts| - 1], hosts[|hosts| - 1];
      SeedHostsLookup(t, init, cms, now, name);
      assert hosts == init + [raw];
      IsNamedAppend(init, raw, name);
      SeedHostSeeds(t, SeedHosts(t, init, Some(cms), now), raw, name, IsNamed(init, name), cms, now);
    }
  }

  /**
   After seeding with the CMS organization present, for every name: a
   configured name is a config row of that organization, under its old id if
   it had a row; any other name keeps its manual row untouched and has no
   config row.
   */
  lemma SeededTable(t: Table, hosts: seq<string>, cms: Id, now: Time, name: string)
    requires WellFormed(t)
    ensures var after := Seed(t, hosts, Some(cms), now);
            && WellFormed(after)
            && if name != "" && IsNamed(hosts, name) then
                 match Lookup(t.rows, name)
                 case Some(r) => Lookup(after.rows, name) == Some(r.(organization := cms, source := Config))
                 case None =>
                   && Lookup(after.rows, name).Some?
                   && var r := Lookup(after.rows, name).value;
                      t.nextId <= r.id && r == Domain(r.id, name, cms, Config, now)
               else if Lookup(t.rows, name).Some? && IsKept(Lookup(t.rows, name).value, hosts) then
                 Lookup(after.rows, name) == Lookup(t.rows, name)
               else Lookup(after.rows, name) == None
  {
    SeedHostsLookup(t, hosts, cms, now, name);
    KeptKeepsSchema(SeedHosts(t, hosts, Some(cms), now), hosts);
    KeptLookup(SeedHosts(t, hosts, Some(cms), now), hosts, name);
  }

  // ---------------------------------------------------------------------
  // The order of the rows
  // ---------------------------------------------------------------------

  /** A row as the first loop leaves it. */
  function ClaimedRow(r: Domain, hosts: seq<string>, cms: Id): Domain {
    if r.hostname != "" && IsNamed(hosts, r.hostname) then r.(organization := cms, source := Config) else r
  }

  function Claimed(rows: seq<Domain>, hosts: seq<string>, cms: Id): seq<Domain> {
    if rows == [] then []
    else Claimed(rows[..|rows| - 1], hosts, cms) + [ClaimedRow(rows[|rows| - 1], hosts, cms)]
  }

  lemma {:induction false} ClaimedAt(rows: seq<Domain>, hosts: seq<string>, cms: Id, claimed: seq<Domain>)
    requires |claimed| == |rows| && forall i :: 0 <= i < |rows| ==> claimed[i] == ClaimedRow(rows[i], hosts, cms)
    ensures Claimed(rows, hosts, cms) == claimed
  {
    if rows != [] {
      ClaimedAt(rows[..|rows| - 1], hosts, cms, claimed[..|rows| - 1]);
    }
  }

  /** A row the seeder adds: a config row of the CMS organization under a configured name. */
  predicate IsAdded(r: Domain, hosts: seq<string>, cms: Id) {
    r.organization == cms && r.source == Config && r.hostname != "" && IsNamed(hosts, r.hostname)
  }

  /** The old rows stay in their places, claimed where they are named; the added ones come behind them. */
  predicate IsExtended(listed: seq<Domain>, after: seq<Domain>, hosts: seq<string>, cms: Id) {
    && |listed| <= |after|
    && (forall i :: 0 <= i < |listed| ==> after[i] == ClaimedRow(listed[i], hosts, cms))
    && (forall i :: |listed| <= i < |after| ==> IsAdded(after[i], hosts, cms))
  }

  lemma SeedHostExtends(listed: seq<Domain>, before: Table, after: Table, init: seq<string>, raw: string,
                        hosts: seq<string>, cms: Id, now: Time)
    requires WellFormed(before) && IsExtended(listed, before.rows, init, cms)
    requires hosts == init + [raw] && after == SeedHost(before, raw, Some(cms), now)
    ensures IsExtended(listed, after.rows, hosts, cms)
  {
    forall name ensures IsNamed(hosts, name) <==> IsNamed(init, name) || NormalizeHostname(raw) == name {
      IsNamedAppend(init, raw, name);
    }
    var hostname := NormalizeHostname(raw);
    if hostname != "" && IndexOf(before.rows, hostname).Some? {
      var k := IndexOf(before.rows, hostname).value;
      forall i | 0 <= i < |before.rows| && i != k ensures before.rows[i].hostname != hostname {
        assert i < k || k < i;
      }
    }
  }

  lemma {:induction false} SeedHostsExtends(t: Table, hosts: seq<string>, cms: Id, now: Time)
    requires WellFormed(t)
    ensures IsExtended(t.rows, SeedHosts(t, hosts, Some(cms), now).rows, hosts, cms)
    decreases |hosts|
  {
    if hosts == [] {
      NothingListed(t.rows, cms);
    } else {
      var init, raw := hosts[..|hosts| - 1], hosts[|hosts| - 1];
      var before := SeedHosts(t, init, Some(cms), now);
      SeedHostsExtends(t, init, cms, now);
      SeedHostsLookup(t, init, cms, now, "");
      SeedHostExtends(t.rows, before, SeedHosts(t, hosts, Some(cms), now), init, raw, hosts, cms, now);
    }
  }

  lemma NothingListed(rows: seq<Domain>, cms: Id)
    ensures IsExtended(rows, rows, [], cms)
  {
  }

  lemma {:induction false} KeptConcat(a: seq<Domain>, b: seq<Domain>, hosts: seq<string>)
    ensures Kept(a + b, hosts) == Kept(a, hosts) + Kept(b, hosts)
    decreases |b|
  {
    if b == [] {
      assert a + b == a;
    } else {
      var init := b[..|b| - 1];
      KeptConcat(a, init, hosts);
      assert (a + b)[..|a + b| - 1] == a + init;
    }
  }

  lemma {:induction false} AllKept(rows: seq<Domain>, hosts: seq<string>)
    requires forall i :: 0 <= i < |rows| ==> IsKept(rows[i], hosts)
    ensures Kept(rows, hosts) == rows
  {
    if rows != [] {
      AllKept(rows[..|rows| - 1], hosts);
    }
  }

  lemma TakeAndRest(rows: seq<Domain>, n: nat)
    requires n <= |rows|
    ensures rows == rows[..n] + rows[n..]
  {
  }

  lemma KeptInOrder(before: seq<Domain>, after: seq<Domain>, hosts: seq<string>, cms: Id)
    returns (added: seq<Domain>)
    requires IsExtended(before, after, hosts, cms)
    ensures Kept(after, hosts) == Kept(Claimed(before, hosts, cms), hosts) + added
    ensures forall i :: 0 <= i < |added| ==> IsAdded(added[i], hosts, cms)
  {
    var n := |before|;
    added := after[n..];
    ClaimedAt(before, hosts, cms, after[..n]);
    TakeAndRest(after, n);
    KeptConcat(after[..n], added, hosts);
    AllKept(added, hosts);
  }

  /** The table after a boot, in order: the old rows that survive, claimed where they are named, then the added ones. */
  lemma SeedingInOrder(t: Table, hosts: seq<string>, cms: Id, now: Time) returns (added: seq<Domain>)
    requires WellFormed(t)
    ensures Seed(t, hosts, Some(cms), now).rows == Kept(Claimed(t.rows, hosts, cms), hosts) + added
    ensures forall i :: 0 <= i < |added| ==> IsAdded(added[i], hosts, cms)
  {
    SeedHostsExtends(t, hosts, cms, now);
    added := KeptInOrder(t.rows, SeedHosts(t, hosts, Some(cms), now).rows, hosts, cms);
  }

  // ---------------------------------------------------------------------
  // Rows and names
  // ---------------------------------------------------------------------

  /** Provided no config row has an empty name, which the seeder never gives one. */
  predicate NoUnnamedConfigRow(t: Table) {
    forall r :: r in t.rows && r.source == Config ==> r.hostname != ""
  }

  lemma RowIsLookup(rows: seq<Domain>, r: Domain)
    requires UniqueNames(rows)
    ensures r in rows <==> Lookup(rows, r.hostname) == Some(r)
  {
    if i :| 0 <= i < |rows| && rows[i] == r {
      LookupIs(rows, i);
    }
  }

  /**
   With the CMS organization present the seeder's rows are exactly the
   configured non-empty names, all of that organization; a hand-made row is
   there afterwards exactly if it was there before under a name the list does
   not claim.
   */
  lemma SeedingReconciles(t: Table, hosts: seq<string>, cms: Id, now: Time)
    requires WellFormed(t) && NoUnnamedConfigRow(t)
    ensures var after := Seed(t, hosts, Some(cms), now);
            && WellFormed(after) && NoUnnamedConfigRow(after)
            && (forall r :: r in after.rows && r.source == Config ==>
                  r.organization == cms && r.hostname != "" && IsNamed(hosts, r.hostname))
            && (forall name :: name != "" && IsNamed(hosts, name) ==>
                  exists r :: r in after.rows && r.hostname == name && r.source == Config)
            && (forall r: Domain :: r.source == Manual ==>
                  (r in after.rows <==> r in t.rows && (r.hostname == "" || !IsNamed(hosts, r.hostname))))
  {
    var after := Seed(t, hosts, Some(cms), now);
    SeededTable(t, hosts, cms, now, "");
    forall r | r in after.rows && r.source == Config
      ensures r.organization == cms && r.hostname != "" && IsNamed(hosts, r.hostname)
    {
      RowIsLookup(after.rows, r);
      SeededTable(t, hosts, cms, now, r.hostname);
      if Lookup(t.rows, r.hostname).Some? {
        FoundIsRow(t.rows, r.hostname);
      }
    }
    forall name | name != "" && IsNamed(hosts, name)
      ensures exists r :: r in after.rows && r.hostname == name && r.source == Config
    {
      SeededTable(t, hosts, cms, now, name);
      FoundIsRow(after.rows, name);
      assert Lookup(after.rows, name).value in after.rows;
    }
    forall r: Domain | r.source == Manual
      ensures r in after.rows <==> r in t.rows && (r.hostname == "" || !IsNamed(hosts, r.hostname))
    {
      RowIsLookup(after.rows, r);
      RowIsLookup(t.rows, r);
      SeededTable(t, hosts, cms, now, r.hostname);
    }
  }

  lemma FoundIsRow(rows: seq<Domain>, name: string)
    requires Lookup(rows, name).Some?
    ensures Lookup(rows, name).value in rows && Lookup(rows, name).value.hostname == name
  {
  }

  predicate IsSettled(t: Table, name: string, cms: Id) {
    && Lookup(t.rows, name).Some?
    && Lookup(t.rows, name).value.organization == cms
    && Lookup(t.rows, name).value.source == Config
  }

  lemma {:induction false} SettledNamesChangeNothing(t: Table, hosts: seq<string>, cms: Id, now: Time)
    requires forall i :: 0 <= i < |hosts| && NormalizeHostname(hosts[i]) != "" ==>
               IsSettled(t, NormalizeHostname(hosts[i]), cms)
    ensures SeedHosts(t, hosts, Some(cms), now).rows == t.rows
    decreases |hosts|
  {
    if hosts != [] {
      var init, raw := hosts[..|hosts| - 1], hosts[|hosts| - 1];
      SettledNamesChangeNothing(t, init, cms, now);
      if NormalizeHostname(raw) != "" {
        assert IsSettled(t, NormalizeHostname(raw), cms);
        var i := IndexOf(t.rows, NormalizeHostname(raw)).value;
        assert t.rows[i := t.rows[i].(organization := cms, source := Config)] == t.rows;
      }
    }
  }

  lemma {:induction false} NoOrganizationNoRows(t: Table, hosts: seq<string>, now: Time)
    ensures SeedHosts(t, hosts, None, now) == t
    decreases |hosts|
  {
    if hosts != [] {
      NoOrganizationNoRows(t, hosts[..|hosts| - 1], now);
    }
  }

  lemma {:induction false} KeptTwice(rows: seq<Domain>, hosts: seq<string>)
    ensures Kept(Kept(rows, hosts), hosts) == Kept(rows, hosts)
  {
    if rows != [] {
      var init, r := rows[..|rows| - 1], rows[|rows| - 1];
      KeptTwice(init, hosts);
      if IsKept(r, hosts) {
        assert (Kept(init, hosts) + [r])[..|Kept(init, hosts)|] == Kept(init, hosts);
      } else {
        assert Kept(rows, hosts) == Kept(init, hosts);
      }
    }
  }

  /**
   Booting again with the same list leaves every row as it is, ids, ages and
   order included, whether or not the CMS organization exists.
   */
  lemma SeedingTwiceIsSeedingOnce(t: Table, hosts: seq<string>, cms: Option<Id>, now: Time, later: Time)
    requires WellFormed(t)
    ensures Seed(Seed(t, hosts, cms, now), hosts, cms, later).rows == Seed(t, hosts, cms, now).rows
  {
    var once := Seed(t, hosts, cms, now);
    KeptTwice(SeedHosts(t, hosts, cms, now).rows, hosts);
    match cms
    case None =>
      NoOrganizationNoRows(once, hosts, later);
    case Some(id) =>
      forall i | 0 <= i < |hosts| && NormalizeHostname(hosts[i]) != ""
        ensures IsSettled(once, NormalizeHostname(hosts[i]), id)
      {
        SeededTable(t, hosts, id, now, NormalizeHostname(hosts[i]));
      }
      SettledNamesChangeNothing(once, hosts, id, later);
  }

  /** How many of the configured names are not empty. */
  function NamesGiven(hosts: seq<string>): nat {
    if hosts == [] then 0
    else NamesGiven(hosts[..|hosts| - 1]) + if NormalizeHostname(hosts[|hosts| - 1]) == "" then 0 else 1
  }

  /** Every boot takes an id for every name it is given, for names that have their row already as well. */
  lemma {:induction false} SeedingTakesIds(t: Table, hosts: seq<string>, cms: Id, now: Time)
    ensures SeedHosts(t, hosts, Some(cms), now).nextId == t.nextId + NamesGiven(hosts)
    ensures Seed(t, hosts, Some(cms), now).nextId == t.nextId + NamesGiven(hosts)
    decreases |hosts|
  {
    if hosts != [] {
      SeedingTakesIds(t, hosts[..|hosts| - 1], cms, now);
    }
  }

  /** Without the CMS organization the seeder only prunes. */
  lemma SeedingWithoutTheOrganization(t: Table, hosts: seq<string>, now: Time, r: Domain)
    ensures Seed(t, hosts, None, now).nextId == t.nextId
    ensures r in Seed(t, hosts, None, now).rows <==>
            r in t.rows && (r.source == Manual || IsNamed(hosts, r.hostname))
  {
    NoOrganizationNoRows(t, hosts, now);
    KeptIsPart(t.rows, hosts);
  }

  // ---------------------------------------------------------------------
  // Which names are canonical
  // ---------------------------------------------------------------------

  /**
   Canonicalising is idempotent except on names that, with one trailing dot
   gone, end in another dot or in white space: `a..` becomes `a.`, and only
   then `a`.
   */
  lemma NormalizedIsCanonical(raw: string)
    ensures var bare := StripDot(Trim(raw));
            IsCanonical(NormalizeHostname(raw)) <==>
            bare == "" || (bare[|bare| - 1] != '.' && !IsWhitespace(bare[|bare| - 1]))
  {
    var bare := StripDot(Trim(raw));
    TrimShape(raw);
    TrimmedIsTight(bare);
    TrimShape(bare);
    TrimFoldsCase(bare);
    LowercaseTwice(bare);
    if bare != "" {
      LowercaseAt(bare, |bare| - 1);
    }
  }

  lemma DottedNameIsNotCanonical()
    ensures NormalizeHostname("a..") == "a." && NormalizeHostname("a.") == "a"
  {
    TrimmedIsTight("a..");
    TrimmedIsTight("a.");
    assert StripDot("a..") == "a." && StripDot("a.") == "a";
    assert "a."[1..] == "." && "."[1..] == "" && "a"[1..] == "";
    assert Lowercase(".") == "." && Lowercase("a") == "a";
  }
}
