/**
 Host classification: src/vhosts.rs over the bindings that
 `load_host_bindings` of src/db.rs reads from the domains table.
 */
module VirtualHosts {
  import opened Common
  import opened Text
  import opened Domains

  datatype Organization = Organization(key: string, documentRoot: string)

  datatype HostBinding = HostBinding(hostname: string, organization: string, documentRoot: string)

  datatype HostClass = Cms | Main | Tenant(binding: HostBinding)

  const CMS_KEY := "cms"
  const MAIN_KEY := "main"

  // ---------------------------------------------------------------------
  // Loading
  // ---------------------------------------------------------------------

  function BindingOf(hostname: string, organization: Organization): HostBinding {
    HostBinding(NormalizeHostname(hostname), organization.key, organization.documentRoot)
  }

  /** The join, by row id; a row of a missing organization does not load. */
  function LoadHostBindings(rows: seq<Domain>, organizations: map<Id, Organization>): seq<HostBinding> {
    if rows == [] then []
    else
      var r := rows[0];
      (if r.organization in organizations then [BindingOf(r.hostname, organizations[r.organization])] else [])
      + LoadHostBindings(rows[1..], organizations)
  }

  // ---------------------------------------------------------------------
  // Classifying
  // ---------------------------------------------------------------------

  /** The last occurrence of `c`. */
  function FindLast(s: string, c: char): (r: Option<nat>)
    ensures r.Some? ==> r.value < |s|
  {
    if s == "" then None
    else if s[|s| - 1] == c then Some(|s| - 1)
    else FindLast(s[..|s| - 1], c)
  }

  function HostName(raw: string): string {
    var host := Trim(raw);
    match Find(host, "]")
    case Some(end) => host[..end + 1]
    case None =>
      match FindLast(host, ':')
      case Some(colon) => host[..colon]
      case None => host
  }

  /** `authority` is the host of the URI, if it has one; a `None` header value is one that is not text. */
  function RequestHost(authority: Option<string>, headers: seq<Option<string>>): Option<string> {
    if authority.Some? then authority
    else if |headers| == 1 then headers[0]
    else None
  }

  predicate EqIgnoreAsciiCase(a: string, b: string) {
    |a| == |b| && forall i :: 0 <= i < |a| ==> ToLower(a[i]) == ToLower(b[i])
  }

  function FirstMatch(bindings: seq<HostBinding>, name: string): Option<HostBinding> {
    if bindings == [] then None
    else if EqIgnoreAsciiCase(bindings[0].hostname, name) then Some(bindings[0])
    else FirstMatch(bindings[1..], name)
  }

  function ClassOf(match_: Option<HostBinding>): HostClass {
    match match_
    case None => Main
    case Some(binding) =>
      if binding.organization == CMS_KEY then Cms
      else if binding.organization == MAIN_KEY then Main
      else Tenant(binding)
  }

  function ClassifyHost(host: string, bindings: seq<HostBinding>): HostClass {
    ClassOf(FirstMatch(bindings, HostName(host)))
  }

  function Classify(authority: Option<string>, headers: seq<Option<string>>, bindings: seq<HostBinding>): HostClass {
    match RequestHost(authority, headers)
    case None => Main
    case Some(host) => ClassifyHost(host, bindings)
  }

  /**
   A request is classified by the host of its URI or else by its one header;
   no header, several, or one that is not text all mean the main host.
   */
  lemma UnclearHostsAreMain(authority: Option<string>, headers: seq<Option<string>>, bindings: seq<HostBinding>)
    ensures Classify(authority, headers, bindings) ==
            if authority.Some? then ClassifyHost(authority.value, bindings)
            else if exists host :: headers == [Some(host)] then ClassifyHost(headers[0].value, bindings)
            else Main
  {
    if |headers| == 1 && headers[0].Some? {
      assert headers == [Some(headers[0].value)];
    }
  }

  /** The class of a host by the organization of its first match: `cms`, `main`, or a tenant's. */
  lemma ClassTellsTheOrganization(host: string, bindings: seq<HostBinding>)
    ensures var first := FirstMatch(bindings, HostName(host));
            match ClassifyHost(host, bindings)
            case Cms => first.Some? && first.value.organization == "cms"
            case Main => first.None? || first.value.organization == "main"
            case Tenant(b) => first == Some(b) && b.organization !in {"cms", "main"}
  {
  }

  // ---------------------------------------------------------------------
  // Letter case
  // ---------------------------------------------------------------------

  lemma EqIgnoreCaseIs(a: string, b: string)
    ensures EqIgnoreAsciiCase(a, b) <==> Lowercase(a) == Lowercase(b)
  {
    forall i | 0 <= i < |a| ensures Lowercase(a)[i] == ToLower(a[i]) {
      LowercaseAt(a, i);
    }
    forall i | 0 <= i < |b| ensures Lowercase(b)[i] == ToLower(b[i]) {
      LowercaseAt(b, i);
    }
    if Lowercase(a) == Lowercase(b) {
      forall i | 0 <= i < |a| ensures ToLower(a[i]) == ToLower(b[i]) {
        assert Lowercase(a)[i] == Lowercase(b)[i];
      }
    }
  }

  lemma {:induction false} FindLastFoldsCase(s: string, c: char)
    requires !('a' <= c <= 'z' || 'A' <= c <= 'Z')
    ensures FindLast(Lowercase(s), c) == FindLast(s, c)
  {
    if s != "" {
      LowercaseAt(s, |s| - 1);
      LowercaseSlice(s, 0, |s| - 1);
      FindLastFoldsCase(s[..|s| - 1], c);
    }
  }

  lemma OccursCharacter(s: string, c: char, i: nat)
    ensures OccursAt(s, [c], i) <==> i < |s| && s[i] == c
  {
    if i < |s| {
      assert s[i..i + 1] == [s[i]];
    }
  }

  lemma FindFoldsCase(s: string, c: char)
    requires !('a' <= c <= 'z' || 'A' <= c <= 'Z')
    ensures Find(Lowercase(s), [c]) == Find(s, [c])
  {
    forall i: nat ensures OccursAt(Lowercase(s), [c], i) == OccursAt(s, [c], i) {
      OccursCharacter(s, c, i);
      OccursCharacter(Lowercase(s), c, i);
      if i < |s| {
        LowercaseAt(s, i);
      }
    }
    FindIsFirst(s, [c]);
    FindIsFirst(Lowercase(s), [c]);
  }

  lemma HostNameFoldsCase(raw: string)
    ensures HostName(Lowercase(raw)) == Lowercase(HostName(raw))
  {
    var host := Trim(raw);
    TrimFoldsCase(raw);
    FindFoldsCase(host, ']');
    FindLastFoldsCase(host, ':');
    match Find(host, "]")
    case Some(end) => LowercaseSlice(host, 0, end + 1);
    case None =>
      match FindLast(host, ':')
      case Some(colon) => LowercaseSlice(host, 0, colon);
      case None =>
  }

  lemma {:induction false} FirstMatchFoldsCase(bindings: seq<HostBinding>, name: string)
    ensures FirstMatch(bindings, Lowercase(name)) == FirstMatch(bindings, name)
  {
    if bindings != [] {
      EqIgnoreCaseIs(bindings[0].hostname, name);
      EqIgnoreCaseIs(bindings[0].hostname, Lowercase(name));
      LowercaseTwice(name);
      FirstMatchFoldsCase(bindings[1..], name);
    }
  }

  /** Letter case never changes the class, for any host and any bindings. */
  lemma LetterCaseNeverMatters(a: string, b: string, bindings: seq<HostBinding>)
    requires EqIgnoreAsciiCase(a, b)
    ensures ClassifyHost(a, bindings) == ClassifyHost(b, bindings)
  {
    EqIgnoreCaseIs(a, b);
    HostNameFoldsCase(a);
    HostNameFoldsCase(b);
    FirstMatchFoldsCase(bindings, HostName(a));
    FirstMatchFoldsCase(bindings, HostName(b));
  }

  // ---------------------------------------------------------------------
  // Ports
  // ---------------------------------------------------------------------

  predicate IsPlain(s: string) {
    ':' !in s && ']' !in s
  }

  lemma {:induction false} TrimStartStopsAtColon(a: string, b: string)
    ensures TrimStart(a + ":" + b, Rust) == TrimStart(a, Rust) + ":" + b
  {
    if a == "" {
      assert a + ":" + b == ":" + b;
    } else if IsSpace(a[0], Rust) {
      TrimStartStopsAtColon(a[1..], b);
      assert (a + ":" + b)[1..] == a[1..] + ":" + b;
    }
  }

  lemma {:induction false} TrimEndStopsAtColon(a: string, b: string)
    ensures TrimEnd(a + ":" + b, Rust) == a + ":" + TrimEnd(b, Rust)
  {
    if b == "" {
      assert a + ":" + b == a + ":";
    } else if IsSpace(b[|b| - 1], Rust) {
      var init := b[..|b| - 1];
      TrimEndStopsAtColon(a, init);
      assert (a + ":" + b)[..|a + ":" + b| - 1] == a + ":" + init;
    }
  }

  lemma {:induction false} FindLastIs(a: string, c: char, b: string)
    requires c !in b
    ensures FindLast(a + [c] + b, c) == Some(|a|)
    decreases |b|
  {
    var s := a + [c] + b;
    if b != "" {
      assert s[|s| - 1] == b[|b| - 1];
      assert s[..|s| - 1] == a + [c] + b[..|b| - 1];
      FindLastIs(a, c, b[..|b| - 1]);
    }
  }

  lemma {:induction false} FindLastIsNone(s: string, c: char)
    requires c !in s
    ensures FindLast(s, c) == None
  {
    if s != "" {
      FindLastIsNone(s[..|s| - 1], c);
    }
  }

  lemma FindIsNone(s: string, c: char)
    requires c !in s
    ensures Find(s, [c]) == None
  {
    FindIsFirst(s, [c]);
    if Find(s, [c]).Some? {
      OccursCharacter(s, c, Find(s, [c]).value);
    }
  }

  /** Only the leading white space goes when a port follows, the last one of several. */
  lemma HostNameBeforePort(host: string, port: string)
    requires ']' !in host && IsPlain(port)
    ensures HostName(host + ":" + port) == TrimStart(host, Rust)
  {
    var name, rest := TrimStart(host, Rust), TrimEnd(port, Rust);
    TrimStartStopsAtColon(host, port);
    TrimEndStopsAtColon(name, port);
    TrimStartSuffix(host);
    TrimEndPrefix(port);
    FindIsNone(name + ":" + rest, ']');
    FindLastIs(name, ':', rest);
  }

  /** The name of a bracketed literal keeps its brackets; what follows them, a port or not, is dropped. */
  lemma BracketedName(literal: string, rest: string)
    requires ']' !in literal
    ensures HostName("[" + literal + "]" + rest) == "[" + literal + "]"
  {
    var raw, name := "[" + literal + "]" + rest, "[" + literal;
    assert raw[0] == '[';
    assert TrimStart(raw, Rust) == raw;
    TrimEndKeeps(name, ']', rest);
    assert raw == name + "]" + rest;
    var tail := TrimEnd(rest, Rust);
    NotContained(name, "]", ']');
    FindsFirst(name, "]", tail);
    assert (name + "]" + tail)[..|name| + 1] == name + "]";
  }

  lemma {:induction false} TrimEndKeeps(a: string, c: char, b: string)
    requires !IsWhitespace(c)
    ensures TrimEnd(a + [c] + b, Rust) == a + [c] + TrimEnd(b, Rust)
  {
    if b == "" {
      assert a + [c] + b == a + [c];
    } else if IsSpace(b[|b| - 1], Rust) {
      var init := b[..|b| - 1];
      TrimEndKeeps(a, c, init);
      assert (a + [c] + b)[..|a + [c] + b| - 1] == a + [c] + init;
    }
  }

  lemma HostNameAlone(host: string)
    requires IsPlain(host)
    ensures HostName(host) == Trim(host)
  {
    TrimShape(host);
    FindIsNone(Trim(host), ']');
    FindLastIsNone(Trim(host), ':');
  }

  /** A host with nothing in front of the port that the port would shield from the trimming. */
  predicate EndsTight(host: string) {
    TrimStart(host, Rust) == "" || !IsWhitespace(host[|host| - 1])
  }

  /**
   An appended port leaves the name, and with it every class, unchanged
   exactly if the host does not end in white space (or is white space
   altogether): `a :80` names `a ` where `a ` alone names `a`.
   */
  lemma PortsNeverMatter(host: string, port: string)
    requires IsPlain(host) && IsPlain(port)
    ensures EndsTight(host) <==> HostName(host + ":" + port) == HostName(host)
    ensures EndsTight(host) <==>
            forall bindings :: ClassifyHost(host + ":" + port, bindings) == ClassifyHost(host, bindings)
  {
    var name := TrimStart(host, Rust);
    HostNameBeforePort(host, port);
    HostNameAlone(host);
    TrimStartSuffix(host);
    TrimEndPrefix(name);
    if !EndsTight(host) {
      var bindings := [HostBinding(name, "shop", "sites/shop")];
      assert EqIgnoreAsciiCase(name, name);
      assert |Trim(host)| < |name|;
      assert ClassifyHost(host + ":" + port, bindings) == Tenant(bindings[0]);
      assert FirstMatch(bindings[1..], Trim(host)) == None;
      assert ClassifyHost(host, bindings) == Main;
    }
  }

  /** White space in front of a port is no longer at the end, and stays in the name. */
  lemma PortShieldsWhiteSpace()
    ensures HostName("a :80") == "a " && HostName("a ") == "a"
    ensures var bindings := [HostBinding("a", "shop", "sites/shop")];
            ClassifyHost("a :80", bindings) == Main && ClassifyHost("a ", bindings) == Tenant(bindings[0])
  {
    HostNameBeforePort("a ", "80");
    assert "a " + ":" + "80" == "a :80";
    HostNameAlone("a ");
    assert "a "[..1] == "a" && TrimEnd("a", Rust) == "a";
    var bindings := [HostBinding("a", "shop", "sites/shop")];
    assert bindings[1..] == [];
    assert !EqIgnoreAsciiCase("a", "a ") && EqIgnoreAsciiCase("a", "a");
  }

  // ---------------------------------------------------------------------
  // The first match is a lookup
  // ---------------------------------------------------------------------

  /** Names in lower case, none twice. */
  predicate IsIndexed(bindings: seq<HostBinding>) {
    && (forall i :: 0 <= i < |bindings| ==> Lowercase(bindings[i].hostname) == bindings[i].hostname)
    && (forall i, j :: 0 <= i < j < |bindings| ==> bindings[i].hostname != bindings[j].hostname)
  }

  /** The bindings as a table from names to bindings. */
  function AsMap(bindings: seq<HostBinding>): map<string, HostBinding>
    requires IsIndexed(bindings)
  {
    map i | 0 <= i < |bindings| :: bindings[i].hostname := bindings[i]
  }

  function LookupClass(table: map<string, HostBinding>, host: string): HostClass {
    var name := Lowercase(HostName(host));
    ClassOf(if name in table then Some(table[name]) else None)
  }

  lemma {:induction false} FirstMatchFinds(bindings: seq<HostBinding>, name: string)
    ensures match FirstMatch(bindings, name)
            case Some(b) => b in bindings && Lowercase(b.hostname) == Lowercase(name)
            case None => forall b :: b in bindings ==> Lowercase(b.hostname) != Lowercase(name)
  {
    if bindings != [] {
      EqIgnoreCaseIs(bindings[0].hostname, name);
      FirstMatchFinds(bindings[1..], name);
    }
  }

  lemma FirstMatchIsLookup(bindings: seq<HostBinding>, host: string)
    requires IsIndexed(bindings)
    ensures ClassifyHost(host, bindings) == LookupClass(AsMap(bindings), host)
  {
    var name := Lowercase(HostName(host));
    FirstMatchFinds(bindings, HostName(host));
    match FirstMatch(bindings, HostName(host))
    case Some(b) =>
      assert b.hostname == name;
      assert AsMap(bindings)[name] == b;
    case None =>
      forall i | 0 <= i < |bindings| ensures bindings[i].hostname != name {
        assert bindings[i] in bindings;
      }
  }

  lemma RowOrderNeverMatters(a: seq<HostBinding>, b: seq<HostBinding>, host: string)
    requires IsIndexed(a) && multiset(a) == multiset(b)
    ensures ClassifyHost(host, a) == ClassifyHost(host, b)
  {
    FirstMatchFinds(a, HostName(host));
    FirstMatchFinds(b, HostName(host));
    forall x ensures x in a <==> x in b {
      assert x in multiset(a) <==> x in multiset(b);
    }
    var first, second := FirstMatch(a, HostName(host)), FirstMatch(b, HostName(host));
    if first.Some? && second.Some? {
      assert first.value in a && second.value in a;
      assert first.value.hostname == second.value.hostname;
    }
  }

  // ---------------------------------------------------------------------
  // From the table to the class
  // ---------------------------------------------------------------------

  /** The first row in the order of their ids that loads under a name. */
  function FirstLoaded(rows: seq<Domain>, organizations: map<Id, Organization>, name: string): (r: Option<Domain>)
    ensures r.Some? ==> r.value.organization in organizations && r.value in rows
  {
    if rows == [] then None
    else if rows[0].organization in organizations && NormalizeHostname(rows[0].hostname) == name then Some(rows[0])
    else FirstLoaded(rows[1..], organizations, name)
  }

  /** What a row serves. */
  function ServedBy(row: Option<Domain>, organizations: map<Id, Organization>): HostClass
    requires row.Some? ==> row.value.organization in organizations
  {
    match row
    case None => Main
    case Some(r) => ClassOf(Some(BindingOf(r.hostname, organizations[r.organization])))
  }

  lemma LoadedNameMatches(hostname: string, organization: Organization, name: string)
    ensures EqIgnoreAsciiCase(BindingOf(hostname, organization).hostname, name)
       <==> NormalizeHostname(hostname) == Lowercase(name)
  {
    EqIgnoreCaseIs(NormalizeHostname(hostname), name);
    LowercaseTwice(StripDot(Trim(hostname)));
  }

  lemma {:induction false} FirstMatchIsFirstRow(rows: seq<Domain>, organizations: map<Id, Organization>, name: string)
    ensures FirstMatch(LoadHostBindings(rows, organizations), name)
         == match FirstLoaded(rows, organizations, Lowercase(name))
            case None => None
            case Some(r) => Some(BindingOf(r.hostname, organizations[r.organization]))
  {
    if rows != [] {
      var rest := LoadHostBindings(rows[1..], organizations);
      FirstMatchIsFirstRow(rows[1..], organizations, name);
      if rows[0].organization in organizations {
        var first := BindingOf(rows[0].hostname, organizations[rows[0].organization]);
        LoadedNameMatches(rows[0].hostname, organizations[rows[0].organization], name);
        assert LoadHostBindings(rows, organizations) == [first] + rest;
        assert ([first] + rest)[1..] == rest;
      } else {
        assert LoadHostBindings(rows, organizations) == rest;
      }
    }
  }

  /** Whatever names are stored, a host is served from the first row that loads under its name. */
  lemma ClassifyingIsFirstRow(rows: seq<Domain>, organizations: map<Id, Organization>, host: string)
    ensures ClassifyHost(host, LoadHostBindings(rows, organizations))
         == ServedBy(FirstLoaded(rows, organizations, Lowercase(HostName(host))), organizations)
  {
    FirstMatchIsFirstRow(rows, organizations, HostName(host));
  }

  lemma {:induction false} FirstLoadedConcat(a: seq<Domain>, b: seq<Domain>, organizations: map<Id, Organization>,
                                             name: string)
    ensures FirstLoaded(a + b, organizations, name)
         == if FirstLoaded(a, organizations, name).Some? then FirstLoaded(a, organizations, name)
            else FirstLoaded(b, organizations, name)
  {
    if a == [] {
      assert a + b == b;
    } else {
      FirstLoadedConcat(a[1..], b, organizations, name);
      assert (a + b)[1..] == a[1..] + b;
    }
  }

  lemma {:induction false} FirstLoadedFinds(rows: seq<Domain>, organizations: map<Id, Organization>, name: string)
    ensures match FirstLoaded(rows, organizations, name)
            case Some(r) => NormalizeHostname(r.hostname) == name
            case None => forall r :: r in rows && r.organization in organizations ==>
                                       NormalizeHostname(r.hostname) != name
  {
    if rows != [] {
      FirstLoadedFinds(rows[1..], organizations, name);
      assert forall r :: r in rows ==> r == rows[0] || r in rows[1..];
    }
  }

  /** A configured name that loads under `name`. */
  predicate IsListed(hosts: seq<string>, name: string) {
    exists i :: 0 <= i < |hosts| && NormalizeHostname(hosts[i]) != ""
             && NormalizeHostname(NormalizeHostname(hosts[i])) == name
  }

  /** The old row, if one survives the boot, that a name is served from. */
  function OldRow(rows: seq<Domain>, hosts: seq<string>, cms: Id, organizations: map<Id, Organization>, name: string)
    : (r: Option<Domain>)
    ensures r.Some? ==> r.value.organization in organizations
  {
    FirstLoaded(Kept(Claimed(rows, hosts, cms), hosts), organizations, name)
  }

  /**
   After a boot with the CMS organization present, whatever names are stored
   and listed: a host is served from the first surviving old row that loads
   under its name; without one it is the CMS if its name is listed, and the
   main host otherwise.
   */
  lemma ServedAfterBoot(t: Table, hosts: seq<string>, cms: Id, now: Time,
                        organizations: map<Id, Organization>, host: string)
    requires WellFormed(t) && cms in organizations && organizations[cms].key == CMS_KEY
    ensures var name := Lowercase(HostName(host));
            var kept := OldRow(t.rows, hosts, cms, organizations, name);
            ClassifyHost(host, LoadHostBindings(Seed(t, hosts, Some(cms), now).rows, organizations)) ==
            if kept.Some? then ServedBy(kept, organizations) else if IsListed(hosts, name) then Cms else Main
  {
    var name, after := Lowercase(HostName(host)), Seed(t, hosts, Some(cms), now).rows;
    var added := SeedingInOrder(t, hosts, cms, now);
    var kept := Kept(Claimed(t.rows, hosts, cms), hosts);
    ClassifyingIsFirstRow(after, organizations, host);
    FirstLoadedConcat(kept, added, organizations, name);
    FirstLoadedFinds(added, organizations, name);
    if FirstLoaded(kept, organizations, name).None? && IsListed(hosts, name) {
      ListedNameLoads(t, hosts, cms, now, organizations, name);
    }
    if FirstLoaded(added, organizations, name).Some? {
      AddedIsListed(FirstLoaded(added, organizations, name).value, hosts, cms);
    }
  }

  lemma AddedIsListed(r: Domain, hosts: seq<string>, cms: Id)
    requires IsAdded(r, hosts, cms)
    ensures IsListed(hosts, NormalizeHostname(r.hostname))
  {
    var i :| 0 <= i < |hosts| && NormalizeHostname(hosts[i]) == r.hostname;
    assert NormalizeHostname(hosts[i]) != "";
  }

  lemma ListedNameLoads(t: Table, hosts: seq<string>, cms: Id, now: Time,
                        organizations: map<Id, Organization>, name: string)
    requires WellFormed(t) && cms in organizations && IsListed(hosts, name)
    ensures FirstLoaded(Seed(t, hosts, Some(cms), now).rows, organizations, name).Some?
  {
    var after := Seed(t, hosts, Some(cms), now).rows;
    var i :| 0 <= i < |hosts| && NormalizeHostname(hosts[i]) != ""
          && NormalizeHostname(NormalizeHostname(hosts[i])) == name;
    var hostname := NormalizeHostname(hosts[i]);
    assert IsNamed(hosts, hostname);
    SeededTable(t, hosts, cms, now, hostname);
    FoundIsRow(after, hostname);
    FirstLoadedFinds(after, organizations, name);
  }

  /**
   Listing a name reclaims it for the CMS exactly if the first old row that
   loads under the name, if there is one, belongs to the CMS once the names
   are claimed.
   */
  lemma ListedNameIsTheCms(t: Table, hosts: seq<string>, cms: Id, now: Time,
                           organizations: map<Id, Organization>, host: string)
    requires WellFormed(t) && cms in organizations && organizations[cms].key == CMS_KEY
    requires IsListed(hosts, Lowercase(HostName(host)))
    ensures ClassifyHost(host, LoadHostBindings(Seed(t, hosts, Some(cms), now).rows, organizations)) == Cms
       <==> (var kept := OldRow(t.rows, hosts, cms, organizations, Lowercase(HostName(host)));
             kept.None? || organizations[kept.value.organization].key == CMS_KEY)
  {
    ServedAfterBoot(t, hosts, cms, now, organizations, host);
  }

  /** A hand-made row that loads under a listed name, but is not spelled like it, keeps the name. */
  lemma OtherSpellingShadows(t: Table, row: Domain, hosts: seq<string>, cms: Id, now: Time,
                             organizations: map<Id, Organization>, host: string)
    requires t.rows == [row] && row.id < t.nextId && row.source == Manual && row.organization in organizations
    requires NormalizeHostname(row.hostname) == Lowercase(HostName(host)) && !IsNamed(hosts, row.hostname)
    requires cms in organizations && organizations[cms].key == CMS_KEY
    ensures ClassifyHost(host, LoadHostBindings(Seed(t, hosts, Some(cms), now).rows, organizations))
         == ServedBy(Some(row), organizations)
  {
    ClaimedAt([row], hosts, cms, [row]);
    AllKept([row], hosts);
    ServedAfterBoot(t, hosts, cms, now, organizations, host);
  }

  /** A hand-written row `Shop` of a tenant: listing `shop` does not reclaim the name. */
  lemma HandWrittenNameShadows()
    ensures var organizations := map[1 := Organization("cms", "sites/cms"), 2 := Organization("shop", "sites/shop")];
            var t := Table([Domain(1, "Shop", 2, Manual, 0)], 2);
            ClassifyHost("shop", LoadHostBindings(Seed(t, ["shop"], Some(1), 9).rows, organizations))
            == Tenant(HostBinding("shop", "shop", "sites/shop"))
  {
    var organizations := map[1 := Organization("cms", "sites/cms"), 2 := Organization("shop", "sites/shop")];
    var row := Domain(1, "Shop", 2, Manual, 0);
    ShopNames();
    OtherSpellingShadows(Table([row], 2), row, ["shop"], 1, 9, organizations, "shop");
  }

  /** A name that needs no trimming and has no trailing dot. */
  lemma TightNameNormalizes(raw: string, name: string)
    requires raw != "" && IsTight(raw) && raw[|raw| - 1] != '.'
    requires |name| == |raw| && forall i :: 0 <= i < |raw| ==> name[i] == ToLower(raw[i])
    ensures NormalizeHostname(raw) == name
  {
    TrimmedIsTight(raw);
    LowercaseIs(raw, name);
  }

  lemma ShopNames()
    ensures NormalizeHostname("shop") == "shop" && NormalizeHostname("Shop") == "shop"
    ensures Lowercase(HostName("shop")) == "shop" && !IsNamed(["shop"], "Shop")
  {
    TightNameNormalizes("shop", "shop");
    TightNameNormalizes("Shop", "shop");
    HostNameAlone("shop");
    TrimmedIsTight("shop");
    LowercaseIs("shop", "shop");
  }

  // ---------------------------------------------------------------------
  // Canonical names
  // ---------------------------------------------------------------------

  predicate CanonicalNames(rows: seq<Domain>) {
    forall r :: r in rows ==> IsCanonical(r.hostname)
  }

  /** Loading keeps exactly the rows of existing organizations. */
  lemma {:induction false} LoadedBinding(rows: seq<Domain>, organizations: map<Id, Organization>, b: HostBinding)
    ensures b in LoadHostBindings(rows, organizations) <==>
            exists r :: r in rows && r.organization in organizations
                     && b == BindingOf(r.hostname, organizations[r.organization])
  {
    if rows != [] {
      LoadedBinding(rows[1..], organizations, b);
      var r0 := rows[0];
      assert r0 in rows;
      assert forall r :: r in rows <==> r == r0 || r in rows[1..];
    }
  }

  lemma {:induction false} LoadedIsIndexed(rows: seq<Domain>, organizations: map<Id, Organization>)
    requires CanonicalNames(rows) && UniqueNames(rows)
    ensures IsIndexed(LoadHostBindings(rows, organizations))
  {
    if rows != [] {
      var rest := LoadHostBindings(rows[1..], organizations);
      LoadedIsIndexed(rows[1..], organizations);
      if rows[0].organization in organizations {
        var first := BindingOf(rows[0].hostname, organizations[rows[0].organization]);
        assert rows[0] in rows;
        LowercaseTwice(StripDot(Trim(rows[0].hostname)));
        forall b | b in rest ensures b.hostname != first.hostname {
          LoadedBinding(rows[1..], organizations, b);
          var r :| r in rows[1..] && r.organization in organizations
                && b == BindingOf(r.hostname, organizations[r.organization]);
          assert r in rows && r.hostname != rows[0].hostname;
        }
        AddToIndex(first, rest);
      }
    }
  }

  lemma AddToIndex(first: HostBinding, rest: seq<HostBinding>)
    requires IsIndexed(rest) && Lowercase(first.hostname) == first.hostname
    requires forall b :: b in rest ==> b.hostname != first.hostname
    ensures IsIndexed([first] + rest)
  {
  }

  /** What a host is served, as a lookup in the domains table. */
  function ServedFrom(rows: seq<Domain>, organizations: map<Id, Organization>, host: string): HostClass {
    match Lookup(rows, Lowercase(HostName(host)))
    case None => Main
    case Some(r) =>
      if r.organization in organizations
      then ClassOf(Some(BindingOf(r.hostname, organizations[r.organization])))
      else Main
  }

  /** Where the stored names are canonical, the first row is the only one. */
  lemma ClassifyingIsTableLookup(rows: seq<Domain>, organizations: map<Id, Organization>, host: string)
    requires CanonicalNames(rows) && UniqueNames(rows)
    ensures ClassifyHost(host, LoadHostBindings(rows, organizations)) == ServedFrom(rows, organizations, host)
  {
    var name := Lowercase(HostName(host));
    ClassifyingIsFirstRow(rows, organizations, host);
    FirstLoadedFinds(rows, organizations, name);
    match FirstLoaded(rows, organizations, name)
    case Some(r) => RowIsLookup(rows, r);
    case None =>
      if Lookup(rows, name).Some? {
        FoundIsRow(rows, name);
      }
  }

  /**
   In particular, if the stored and the listed names are canonical: a
   configured name is the CMS, whatever row it had before; any
   other name is served from its hand-made row if it has one, and is the main
   host otherwise.
   */
  lemma CanonicalNamesServed(t: Table, hosts: seq<string>, cms: Id, now: Time,
                             organizations: map<Id, Organization>, host: string)
    requires WellFormed(t) && CanonicalNames(t.rows) && NoUnnamedConfigRow(t)
    requires forall i :: 0 <= i < |hosts| ==> IsCanonical(NormalizeHostname(hosts[i]))
    requires cms in organizations && organizations[cms].key == CMS_KEY
    ensures var name := Lowercase(HostName(host));
            ClassifyHost(host, LoadHostBindings(Seed(t, hosts, Some(cms), now).rows, organizations)) ==
            if name != "" && IsNamed(hosts, name) then Cms
            else if Lookup(t.rows, name).Some? && Lookup(t.rows, name).value.source == Manual
            then ServedFrom(t.rows, organizations, host)
            else Main
  {
    var name := Lowercase(HostName(host));
    var after := Seed(t, hosts, Some(cms), now);
    SeedingReconciles(t, hosts, cms, now);
    SeededTable(t, hosts, cms, now, name);
    forall r | r in after.rows ensures IsCanonical(r.hostname) {
      if r.source == Config {
        var i :| 0 <= i < |hosts| && NormalizeHostname(hosts[i]) == r.hostname;
      } else {
        assert r in t.rows;
      }
    }
    ClassifyingIsTableLookup(after.rows, organizations, host);
    if Lookup(t.rows, name).Some? {
      FoundIsRow(t.rows, name);
    }
  }
}
