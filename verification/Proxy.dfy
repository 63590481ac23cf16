/**
 CIDR networks and client address resolution, src/proxy.rs. Prefix notation
 is that of section 3.1 of RFC 4632. Address text is read by a parse function
 given as a parameter.
 */
module Proxy {
  import opened Common
  import opened Text
  import opened Bits

  type U32 = n: nat | n < 0x1_0000_0000
  type U128 = n: nat | n < 0x1_0000_0000_0000_0000_0000_0000_0000_0000

  datatype IpAddr = V4(v4: U32) | V6(v6: U128)
  {
    function Width(): nat {
      if V4? then 32 else 128
    }

    function Bits(): nat {
      if V4? then v4 else v6
    }

    predicate SameFamily(other: IpAddr) {
      V4? == other.V4?
    }

    /** An address of this family with its low `k` bits or more cleared. */
    function WithBits(bits: nat): (r: IpAddr)
      requires bits <= Bits()
      ensures r.SameFamily(this) && r.Bits() == bits
    {
      if V4? then V4(bits) else V6(bits)
    }
  }

  lemma BitsFitWidth(ip: IpAddr)
    ensures ip.Bits() < Pow2(ip.Width())
  {
    assert Pow2(8) == 0x100;
    Pow2Adds(8, 8);
    assert Pow2(16) == 0x1_0000;
    Pow2Adds(16, 16);
    assert Pow2(32) == 0x1_0000_0000;
    Pow2Adds(32, 32);
    assert Pow2(64) == 0x1_0000_0000_0000_0000;
    Pow2Adds(64, 64);
  }

  type IpParser = string -> Option<IpAddr>

  /** A network; the parser, its only maker, keeps the prefix within the width of the family. */
  datatype Cidr = Cidr(network: IpAddr, prefix: nat)
  {
    function HostBits(): nat {
      if prefix <= network.Width() then network.Width() - prefix else 0
    }

    function Mask(): nat {
      if prefix == 0 then 0 else ShiftLeft(Max(network.Width()), HostBits(), network.Width())
    }

    /** Clears the host bits of `address`; an address of the other family is left alone. */
    function Masked(address: IpAddr): IpAddr {
      if address.SameFamily(network) then
        AndBound(address.Bits(), Mask());
        address.WithBits(And(address.Bits(), Mask()))
      else address
    }

    predicate NetworkIsNormalized() {
      Masked(network) == network
    }

    predicate Contains(address: IpAddr) {
      address.SameFamily(network) && Masked(address) == network
    }

    /** A network the parser can answer. */
    predicate Accepted() {
      prefix <= network.Width() && NetworkIsNormalized()
    }
  }

  lemma {:induction false} AndBound(a: nat, b: nat)
    ensures And(a, b) <= a
  {
    if a != 0 && b != 0 {
      AndBound(a / 2, b / 2);
    }
  }

  function ParseCidr(value: string, parseIp: IpParser): (r: Option<Cidr>)
    ensures r.Some? ==> r.value.Accepted()
  {
    var slash := Find(value, "/");
    var parsed :=
      if slash.Some? then
        match (ParseU8(value[slash.value + 1..]), parseIp(value[..slash.value]))
        case (Some(prefix), Some(address)) =>
          if prefix > address.Width() then None else Some(Cidr(address, prefix))
        case _ => None
      else
        match parseIp(value)
        case Some(address) => Some(Cidr(address, address.Width()))
        case None => None;
    if parsed.Some? && parsed.value.NetworkIsNormalized() then parsed else None
  }

  // ---------------------------------------------------------------------
  // Masks, intervals and shared prefixes
  // ---------------------------------------------------------------------

  /** The source's mask, zero for the empty prefix, clears exactly the host bits. */
  lemma MaskKeepsHigh(a: nat, p: nat, k: nat)
    requires a < Pow2(p + k)
    ensures And(a, if p == 0 then 0 else ShiftLeft(Max(p + k), k, p + k)) == KeepHigh(a, k)
  {
    AndMask(a, p, k);
    if p == 0 {
      OnesAboveIsProduct(0, k);
      assert Max(0) == 0;
    } else {
      ShiftedOnes(p, k);
    }
  }

  lemma KeepHighIsMultiple(a: nat, base: nat, k: nat)
    requires KeepHigh(base, k) == base
    ensures KeepHigh(a, k) == base <==> base <= a < base + Pow2(k)
    ensures KeepHigh(a, k) == base <==> ShiftRight(a, k) == ShiftRight(base, k)
  {
    KeepHighIsProduct(a, k);
    KeepHighIsProduct(base, k);
    BlockOf(a, Pow2(k), ShiftRight(a, k), ShiftRight(base, k));
  }

  /** Which block of `b` values `a` lies in. */
  lemma BlockOf(a: nat, b: nat, q: nat, q': nat)
    requires 0 < b && q == a / b
    ensures q * b == q' * b <==> q' * b <= a < q' * b + b
    ensures q * b == q' * b <==> q == q'
  {
    assert q * b <= a < q * b + b;
    if q < q' {
      MultiplyMonotone(q + 1, q', b);
    } else if q' < q {
      MultiplyMonotone(q' + 1, q, b);
    }
  }

  /**
   An accepted network contains exactly the addresses of its own family in
   the interval of 2^(w-p) values that starts at its base.
   */
  lemma ContainsIsInterval(c: Cidr, ip: IpAddr)
    requires c.Accepted()
    ensures c.Contains(ip)
       <==> ip.SameFamily(c.network)
            && c.network.Bits() <= ip.Bits() < c.network.Bits() + Pow2(c.network.Width() - c.prefix)
  {
    if ip.SameFamily(c.network) {
      ContainsMeansKeepHigh(c, ip);
      KeepHighIsMultiple(ip.Bits(), c.network.Bits(), c.HostBits());
    }
  }

  lemma ContainsMeansKeepHigh(c: Cidr, ip: IpAddr)
    requires c.prefix <= c.network.Width() && ip.SameFamily(c.network)
    ensures c.NetworkIsNormalized() <==> KeepHigh(c.network.Bits(), c.HostBits()) == c.network.Bits()
    ensures c.Contains(ip) <==> KeepHigh(ip.Bits(), c.HostBits()) == c.network.Bits()
  {
    BitsFitWidth(ip);
    BitsFitWidth(c.network);
    MaskKeepsHigh(c.network.Bits(), c.prefix, c.HostBits());
    MaskKeepsHigh(ip.Bits(), c.prefix, c.HostBits());
  }

  /** Equivalently, exactly the addresses of the family that share the top `prefix` bits of its base. */
  lemma ContainsIsSharedPrefix(c: Cidr, ip: IpAddr)
    requires c.Accepted()
    ensures c.Contains(ip)
       <==> ip.SameFamily(c.network)
            && SameBits(ip.Bits(), c.network.Bits(), c.network.Width() - c.prefix, c.network.Width())
  {
    if ip.SameFamily(c.network) {
      BitsFitWidth(ip);
      BitsFitWidth(c.network);
      ContainsMeansKeepHigh(c, ip);
      KeepHighIsMultiple(ip.Bits(), c.network.Bits(), c.HostBits());
      TopBitsDecide(ip.Bits(), c.network.Bits(), c.prefix, c.HostBits());
    }
  }

  /** Two accepted networks of one family are nested or disjoint. */
  lemma NestedOrDisjoint(wide: Cidr, narrow: Cidr)
    requires wide.Accepted() && narrow.Accepted()
    requires wide.network.SameFamily(narrow.network) && wide.prefix <= narrow.prefix
    ensures || (forall ip: IpAddr :: narrow.Contains(ip) ==> wide.Contains(ip))
            || (forall ip: IpAddr :: narrow.Contains(ip) ==> !wide.Contains(ip))
  {
    forall ip: IpAddr | narrow.Contains(ip) ensures wide.Contains(ip) == wide.Contains(narrow.network) {
      MembersShareTheWideNetwork(wide, narrow, ip);
    }
  }

  lemma MembersShareTheWideNetwork(wide: Cidr, narrow: Cidr, ip: IpAddr)
    requires wide.Accepted() && narrow.Accepted()
    requires wide.network.SameFamily(narrow.network) && wide.prefix <= narrow.prefix
    requires narrow.Contains(ip)
    ensures wide.Contains(ip) == wide.Contains(narrow.network)
  {
    var k, k', base := narrow.HostBits(), wide.HostBits(), narrow.network.Bits();
    ContainsMeansKeepHigh(narrow, ip);
    ContainsMeansKeepHigh(wide, ip);
    ContainsMeansKeepHigh(wide, narrow.network);
    KeepHighIsMultiple(ip.Bits(), base, k);
    SameBlockSameWideBlock(ip.Bits(), base, k, k');
  }

  lemma SameBlockSameWideBlock(a: nat, base: nat, k: nat, k': nat)
    requires k <= k' && ShiftRight(a, k) == ShiftRight(base, k)
    ensures KeepHigh(a, k') == KeepHigh(base, k')
  {
    ShiftTwice(a, k, k' - k);
    ShiftTwice(base, k, k' - k);
    KeepHighIsProduct(a, k');
    KeepHighIsProduct(base, k');
  }

  // ---------------------------------------------------------------------
  // What the parser accepts
  // ---------------------------------------------------------------------

  lemma NormalizedHasNoHostBits(ip: IpAddr, prefix: nat)
    requires prefix <= ip.Width()
    ensures Cidr(ip, prefix).NetworkIsNormalized() <==> ip.Bits() % Pow2(ip.Width() - prefix) == 0
  {
    ContainsMeansKeepHigh(Cidr(ip, prefix), ip);
    KeptWhenDivisible(ip.Bits(), ip.Width() - prefix);
  }

  lemma KeptWhenDivisible(a: nat, k: nat)
    ensures KeepHigh(a, k) == a <==> a % Pow2(k) == 0
  {
    KeepHighIsProduct(a, k);
    assert a == ShiftRight(a, k) * Pow2(k) + a % Pow2(k);
  }

  /** A written block is accepted exactly when its prefix fits and no host bit is set. */
  lemma ParsesWrittenBlocks(address: string, ip: IpAddr, prefix: nat, parseIp: IpParser)
    requires parseIp(address) == Some(ip) && '/' !in address && prefix <= 255
    ensures ParseCidr(address + "/" + Decimal(prefix), parseIp)
         == if prefix <= ip.Width() && ip.Bits() % Pow2(ip.Width() - prefix) == 0
            then Some(Cidr(ip, prefix)) else None
  {
    FindsTheSlash(address, Decimal(prefix));
    DecimalParses(prefix);
    if prefix <= ip.Width() {
      NormalizedHasNoHostBits(ip, prefix);
    }
  }

  lemma FindsTheSlash(address: string, rest: string)
    requires '/' !in address
    ensures var value := address + "/" + rest;
            Find(value, "/") == Some(|address|) && value[..|address|] == address && value[|address| + 1..] == rest
  {
    NotContained(address, "/", '/');
    FindsFirst(address, "/", rest);
  }

  lemma DecimalParses(n: nat)
    requires n <= 255
    ensures ParseU8(Decimal(n)) == Some(n)
  {
    DecimalValue(n);
  }

  /** A bare address is accepted as the network of that one address. */
  lemma ParsesBareAddresses(address: string, ip: IpAddr, parseIp: IpParser, other: IpAddr)
    requires parseIp(address) == Some(ip) && '/' !in address
    ensures var parsed := ParseCidr(address, parseIp);
            parsed == Some(Cidr(ip, ip.Width())) && (parsed.value.Contains(other) <==> other == ip)
  {
    NotContained(address, "/", '/');
    NormalizedHasNoHostBits(ip, ip.Width());
    ContainsIsInterval(Cidr(ip, ip.Width()), other);
  }

  // ---------------------------------------------------------------------
  // The client address
  // ---------------------------------------------------------------------

  predicate IsTrusted(ip: IpAddr, trusted: seq<Cidr>) {
    exists i :: 0 <= i < |trusted| && trusted[i].Contains(ip)
  }

  /** What a loop over `xs` collects that appends the results of `f`. */
  function Collect<S, T>(xs: seq<S>, f: S -> seq<T>): seq<T> {
    if xs == [] then [] else f(xs[0]) + Collect(xs[1..], f)
  }

  /** The address an entry spells; unparsable entries are skipped. */
  function ReadEntry<Ip>(parseIp: string -> Option<Ip>): string -> seq<Ip> {
    (entry: string) => match parseIp(Trim(entry)) case Some(ip) => [ip] case None => []
  }

  /** The addresses of one header value, whose entries are separated by commas. */
  function ReadValue<Ip>(parseIp: string -> Option<Ip>): string -> seq<Ip> {
    (value: string) => Collect(Split(value, ','), ReadEntry(parseIp))
  }

  function Candidates<Ip>(values: seq<string>, parseIp: string -> Option<Ip>): seq<Ip> {
    Collect(values, ReadValue(parseIp))
  }

  /** The right-most untrusted candidate, or the left-most one when every candidate is trusted. */
  function Choose(candidates: seq<IpAddr>, trusted: seq<Cidr>): IpAddr
    requires candidates != []
  {
    var last := candidates[|candidates| - 1];
    if |candidates| == 1 || !IsTrusted(last, trusted) then last
    else Choose(candidates[..|candidates| - 1], trusted)
  }

  function Resolve(peer: IpAddr, candidates: seq<IpAddr>, trusted: seq<Cidr>): IpAddr {
    if !IsTrusted(peer, trusted) || candidates == [] then peer else Choose(candidates, trusted)
  }

  /** The first half of the source function: the header values, split at commas. */
  method CollectCandidates<Ip>(xffValues: seq<string>, parseIp: string -> Option<Ip>)
    returns (candidates: seq<Ip>)
    ensures candidates == Candidates(xffValues, parseIp)
  {
    candidates := [];
    for i := 0 to |xffValues|
      invariant candidates == Collect(xffValues[..i], ReadValue(parseIp))
    {
      var parts := Split(xffValues[i], ',');
      ghost var before := candidates;
      for j := 0 to |parts|
        invariant candidates == before + Collect(parts[..j], ReadEntry(parseIp))
      {
        var parsed := parseIp(Trim(parts[j]));
        if parsed.Some? {
          candidates := candidates + [parsed.value];
        }
        CollectNext(parts, j, ReadEntry(parseIp));
        AppendRead(before, Collect(parts[..j], ReadEntry(parseIp)), ReadEntry(parseIp)(parts[j]));
      }
      assert parts[..|parts|] == parts;
      assert Collect(parts, ReadEntry(parseIp)) == ReadValue(parseIp)(xffValues[i]);
      CollectNext(xffValues, i, ReadValue(parseIp));
    }
    assert xffValues[..|xffValues|] == xffValues;
  }

  method ResolveClientIp(peer: IpAddr, xffValues: seq<string>, trusted: seq<Cidr>, parseIp: IpParser)
    returns (r: IpAddr)
    ensures r == Resolve(peer, Candidates(xffValues, parseIp), trusted)
  {
    if !IsTrusted(peer, trusted) {
      return peer;
    }
    var candidates := CollectCandidates(xffValues, parseIp);
    if candidates == [] {
      return peer;
    }
    for i := |candidates| downto 0
      invariant forall j :: i <= j < |candidates| ==> IsTrusted(candidates[j], trusted)
    {
      if !IsTrusted(candidates[i], trusted) {
        ChooseSkipsTrusted(candidates, i, trusted);
        return candidates[i];
      }
    }
    ChooseSkipsTrusted(candidates, 0, trusted);
    r := candidates[0];
  }

  lemma {:induction false} ChooseSkipsTrusted(candidates: seq<IpAddr>, i: nat, trusted: seq<Cidr>)
    requires i < |candidates|
    requires forall j :: i < j < |candidates| ==> IsTrusted(candidates[j], trusted)
    requires i == 0 || !IsTrusted(candidates[i], trusted)
    ensures Choose(candidates, trusted) == candidates[i]
  {
    if i < |candidates| - 1 {
      ChooseSkipsTrusted(candidates[..|candidates| - 1], i, trusted);
    }
  }

  /**
   What a trusted peer's header resolves to: an entry with only trusted hops
   to its right, itself untrusted unless it is the left-most one.
   */
  lemma {:induction false} ChosenEntry(candidates: seq<IpAddr>, trusted: seq<Cidr>) returns (i: nat)
    requires candidates != []
    ensures i < |candidates| && Choose(candidates, trusted) == candidates[i]
    ensures forall j :: i < j < |candidates| ==> IsTrusted(candidates[j], trusted)
    ensures i == 0 || !IsTrusted(candidates[i], trusted)
  {
    i := |candidates| - 1;
    if |candidates| > 1 && IsTrusted(candidates[i], trusted) {
      i := ChosenEntry(candidates[..i], trusted);
    }
  }

  predicate AllTrusted(candidates: seq<IpAddr>, trusted: seq<Cidr>) {
    forall i :: 0 <= i < |candidates| ==> IsTrusted(candidates[i], trusted)
  }

  /** The 2^(w-p) addresses of a network, from its base on. */
  predicate InInterval(ip: IpAddr, c: Cidr) {
    && c.prefix <= c.network.Width() && ip.SameFamily(c.network)
    && c.network.Bits() <= ip.Bits() < c.network.Bits() + Pow2(c.network.Width() - c.prefix)
  }

  /** An address is trusted exactly if it lies in some network of the list. */
  lemma TrustedIsInSomeInterval(ip: IpAddr, trusted: seq<Cidr>)
    requires forall c :: c in trusted ==> c.Accepted()
    ensures IsTrusted(ip, trusted) <==> exists c :: c in trusted && InInterval(ip, c)
  {
    forall c | c in trusted ensures c.Contains(ip) <==> InInterval(ip, c) {
      ContainsIsInterval(c, ip);
    }
    if IsTrusted(ip, trusted) {
      var i :| 0 <= i < |trusted| && trusted[i].Contains(ip);
      assert trusted[i] in trusted;
    }
  }

  lemma SquaredPower(n: nat, p: nat, m: nat)
    requires Pow2(n) == p && m == n + n
    ensures Pow2(m) == p * p
  {
    Pow2Adds(n, n);
  }

  /** The widths of the two families. */
  lemma WidthsAreExact(ip: IpAddr)
    ensures Pow2(ip.Width()) == if ip.V4? then 0x1_0000_0000 else 0x1_0000_0000_0000_0000_0000_0000_0000_0000
  {
    var four: nat := 4;
    assert Pow2(four) == 16;
    SquaredPower(four, 16, 8);
    SquaredPower(8, 0x100, 16);
    SquaredPower(16, 0x1_0000, 32);
    if ip.V6? {
      SquaredPower(32, 0x1_0000_0000, 64);
      SquaredPower(64, 0x1_0000_0000_0000_0000, 128);
    }
  }

  /** An entry is read without the white space around it, and skipped if it is no address. */
  lemma EntriesAreTrimmed<Ip>(entry: string, x: string, low: nat, parseIp: string -> Option<Ip>)
    requires IsTrimmed(entry, x, low, Rust)
    ensures ReadEntry(parseIp)(entry) == if parseIp(x).Some? then [parseIp(x).value] else []
  {
    TrimIs(entry, x, low, Rust);
    assert Trim(entry) == x;
  }

  /** A header value is read entry by entry. */
  lemma EntriesAreRead<Ip>(entries: seq<string>, parseIp: string -> Option<Ip>)
    requires entries != [] && forall i :: 0 <= i < |entries| ==> ',' !in entries[i]
    ensures Candidates([Join(entries, ',')], parseIp) == Collect(entries, ReadEntry(parseIp))
  {
    SplitJoin(entries, ',');
    CollectOne(Join(entries, ','), ReadValue(parseIp));
  }

  /**
   The whole answer: the peer, unless it is trusted and forwards an address;
   then the right-most untrusted entry, or the left-most one if there is none.
   */
  lemma ResolvedAddress(peer: IpAddr, candidates: seq<IpAddr>, trusted: seq<Cidr>)
    ensures var r := Resolve(peer, candidates, trusted);
            if !IsTrusted(peer, trusted) || candidates == [] then r == peer
            else exists i :: 0 <= i < |candidates| && r == candidates[i]
                          && (forall j :: i < j < |candidates| ==> IsTrusted(candidates[j], trusted))
                          && (i == 0 || !IsTrusted(candidates[i], trusted))
  {
    if IsTrusted(peer, trusted) && candidates != [] {
      var i := ChosenEntry(candidates, trusted);
    }
  }

  /**
   Entries a client puts in front of the header cannot change the answer,
   exactly when the peer or some later entry is untrusted.
   */
  lemma ForgedEntriesAreIgnored(peer: IpAddr, candidates: seq<IpAddr>, trusted: seq<Cidr>)
    ensures (forall forged: seq<IpAddr> ::
               Resolve(peer, forged + candidates, trusted) == Resolve(peer, candidates, trusted))
       <==> (!IsTrusted(peer, trusted) || !AllTrusted(candidates, trusted))
  {
    if IsTrusted(peer, trusted) && AllTrusted(candidates, trusted) {
      var other := AnotherAddress(Resolve(peer, candidates, trusted));
      LeftmostOfTrusted([other] + candidates, trusted);
      assert Resolve(peer, [other] + candidates, trusted) != Resolve(peer, candidates, trusted);
    } else if IsTrusted(peer, trusted) {
      forall forged: seq<IpAddr> {
        ForgedEntryIsNotChosen(forged, candidates, trusted);
      }
    }
  }

  lemma LeftmostOfTrusted(all: seq<IpAddr>, trusted: seq<Cidr>)
    requires all != [] && AllTrusted(all[1..], trusted)
    ensures Choose(all, trusted) == all[0]
  {
    forall j | 0 < j < |all| ensures IsTrusted(all[j], trusted) {
      assert all[j] == all[1..][j - 1];
    }
    ChooseSkipsTrusted(all, 0, trusted);
  }

  lemma ForgedEntryIsNotChosen(forged: seq<IpAddr>, candidates: seq<IpAddr>, trusted: seq<Cidr>)
    requires !AllTrusted(candidates, trusted)
    ensures Choose(forged + candidates, trusted) == Choose(candidates, trusted)
  {
    var i := ChosenEntry(candidates, trusted);
    var all := forged + candidates;
    forall j | |forged| + i < j < |all| ensures IsTrusted(all[j], trusted) {
      assert all[j] == candidates[j - |forged|];
    }
    ChooseSkipsTrusted(all, |forged| + i, trusted);
  }

  function AnotherAddress(ip: IpAddr): (other: IpAddr)
    ensures other != ip
  {
    if ip == V4(0) then V6(0) else V4(0)
  }

  lemma {:induction false} SplitAtSeparator(a: string, b: string, separator: char)
    ensures Split(a + [separator] + b, separator) == Split(a, separator) + Split(b, separator)
  {
    JoinConcat(Split(a, separator), Split(b, separator), separator);
    SplitJoin(Split(a, separator) + Split(b, separator), separator);
  }

  lemma {:induction false} JoinConcat(a: seq<string>, b: seq<string>, separator: char)
    requires a != [] && b != []
    ensures Join(a + b, separator) == Join(a, separator) + [separator] + Join(b, separator)
  {
    if |a| == 1 {
      assert (a + b)[1..] == b;
    } else {
      JoinConcat(a[1..], b, separator);
      assert (a + b)[1..] == a[1..] + b;
      var rest := Join(a[1..], separator);
      assert a[0] + [separator] + (rest + [separator] + Join(b, separator))
          == (a[0] + [separator] + rest) + [separator] + Join(b, separator);
    }
  }

  lemma {:induction false} CollectConcat<S, T>(a: seq<S>, b: seq<S>, f: S -> seq<T>)
    ensures Collect(a + b, f) == Collect(a, f) + Collect(b, f)
  {
    if a == [] {
      assert a + b == b;
    } else {
      CollectConcat(a[1..], b, f);
      assert (a + b)[1..] == a[1..] + b && (a + b)[0] == a[0];
      var head, x, y := f(a[0]), Collect(a[1..], f), Collect(b, f);
      assert head + (x + y) == (head + x) + y;
    }
  }

  lemma CollectNext<S, T>(xs: seq<S>, i: nat, f: S -> seq<T>)
    requires i < |xs|
    ensures Collect(xs[..i + 1], f) == Collect(xs[..i], f) + f(xs[i])
  {
    assert xs[..i + 1] == xs[..i] + [xs[i]];
    CollectConcat(xs[..i], [xs[i]], f);
    CollectOne(xs[i], f);
  }

  lemma AppendRead<T>(before: seq<T>, read: seq<T>, entry: seq<T>)
    ensures before + (read + entry) == (before + read) + entry
    ensures entry == [] ==> before + (read + entry) == before + read
  {
  }

  lemma CollectOne<S, T>(x: S, f: S -> seq<T>)
    ensures Collect([x], f) == f(x)
  {
    assert [x][1..] == [];
  }

  /** A hop that extends the last value with a comma and a hop that adds a value are read alike. */
  lemma CommaOrNewValue<Ip>(values: seq<string>, last: string, added: string, parseIp: string -> Option<Ip>)
    ensures Candidates(values + [last + [','] + added], parseIp) == Candidates(values + ([last] + [added]), parseIp)
  {
    var f := ReadValue(parseIp);
    CollectConcat(values, [last + [','] + added], f);
    CollectConcat(values, [last] + [added], f);
    CollectConcat([last], [added], f);
    CollectOne(last + [','] + added, f);
    CollectOne(last, f);
    CollectOne(added, f);
    SplitAtSeparator(last, added, ',');
    CollectConcat(Split(last, ','), Split(added, ','), ReadEntry(parseIp));
  }
}
