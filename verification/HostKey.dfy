/**
 Host key verification against a known_hosts file or a pinned fingerprint.

 The base64 crate, SHA-256, HMAC-SHA1 and Unicode lowercasing are parameters; the file is the result of
 reading it. The order in which the hash map yields its keys is a parameter of each verification.
 */
module HostKey {
  import opened Prelude
  import opened Text
  import Decimal

  datatype KnownHost = KnownHost(keyType: string, keyData: string)

  /** One host name of a line with the key of that line. */
  datatype Pair = Pair(host: string, key: KnownHost)

  datatype Config = Config(ignoreHostKey: bool, knownHostsPath: Option<string>, allowUnknownHosts: bool,
                           fingerprint: Option<string>)

  datatype Verdict =
    | Verified
    | Mismatch(expected: string, actual: string)
    | UnknownHost
    | Skipped
    | NotConfigured

  datatype Primitives = Primitives(decode: string -> Option<seq<byte>>, fingerprint: seq<byte> -> string,
                                   hmac: (seq<byte>, string) -> seq<byte>, lower: string -> string)

  predicate IsAllowed(v: Verdict, config: Config) {
    match v
    case Verified => true
    case Skipped => true
    case NotConfigured => true
    case UnknownHost => config.allowUnknownHosts
    case Mismatch(_, _) => false
  }

  // ------------------------------------------------------------------ the file

  const HASHED := "|1|"

  /** `[host]:port` becomes the host alone, whatever follows the bracket. */
  function NormalizeHostname(host: string): string {
    if host != "" && host[0] == '[' && ']' in host then host[1..IndexOf(host, ']')] else host
  }

  function NormalizeAll(hosts: seq<string>): seq<string> {
    seq(|hosts|, i requires 0 <= i < |hosts| => NormalizeHostname(hosts[i]))
  }

  function ParseKnownHostsLine(line: string): Option<(seq<string>, KnownHost)> {
    var parts := SplitWhitespace(line);
    if |parts| < 3 then None
    else
      var names := if HASHED <= parts[0] then [parts[0]] else NormalizeAll(Split(parts[0], ','));
      Some((names, KnownHost(parts[1], parts[2])))
  }

  function PairUp(names: seq<string>, key: KnownHost): seq<Pair> {
    seq(|names|, i requires 0 <= i < |names| => Pair(names[i], key))
  }

  /** What a line of the file says: blank lines, comments and short lines say nothing. */
  function LinePairs(line: string): seq<Pair> {
    var text := Trim(line);
    if text == "" || text[0] == '#' then []
    else match ParseKnownHostsLine(text)
      case None => []
      case Some(entry) => PairUp(entry.0, entry.1)
  }

  function AllPairs(lines: seq<string>): seq<Pair> {
    if lines == [] then [] else AllPairs(lines[..|lines| - 1]) + LinePairs(lines[|lines| - 1])
  }

  /** The keys that the pairs list for a host, in file order. */
  function Select(pairs: seq<Pair>, host: string): seq<KnownHost> {
    if pairs == [] then []
    else
      var last := pairs[|pairs| - 1];
      Select(pairs[..|pairs| - 1], host) + (if last.host == host then [last.key] else [])
  }

  function Lookup(m: map<string, seq<KnownHost>>, host: string): seq<KnownHost> {
    if host in m then m[host] else []
  }

  /** The map groups the pairs by host and has no other hosts. */
  ghost predicate Indexes(m: map<string, seq<KnownHost>>, pairs: seq<Pair>) {
    forall host :: Lookup(m, host) == Select(pairs, host) && (host in m ==> m[host] != [])
  }

  lemma IndexesOneMore(m: map<string, seq<KnownHost>>, pairs: seq<Pair>, p: Pair)
    requires Indexes(m, pairs)
    ensures Indexes(m[p.host := Lookup(m, p.host) + [p.key]], pairs + [p])
  {
    assert (pairs + [p])[..|pairs|] == pairs;
    forall host
      ensures Select(pairs + [p], host) == Select(pairs, host) + (if p.host == host then [p.key] else [])
    {
    }
  }

  lemma {:induction false} SelectEmptyIff(pairs: seq<Pair>, host: string)
    ensures Select(pairs, host) == [] <==> forall i :: 0 <= i < |pairs| ==> pairs[i].host != host
  {
    if pairs != [] {
      var n := |pairs| - 1;
      SelectEmptyIff(pairs[..n], host);
      assert forall i :: 0 <= i < n ==> pairs[..n][i] == pairs[i];
    }
  }

  /** The keys of the map are the hosts of the pairs. */
  lemma KeysAreHosts(m: map<string, seq<KnownHost>>, pairs: seq<Pair>, host: string)
    requires Indexes(m, pairs)
    ensures host in m <==> exists i :: 0 <= i < |pairs| && pairs[i].host == host
  {
    SelectEmptyIff(pairs, host);
    assert Lookup(m, host) == Select(pairs, host);
  }

  lemma EmptyIff(m: map<string, seq<KnownHost>>, pairs: seq<Pair>)
    requires Indexes(m, pairs)
    ensures m == map[] <==> pairs == []
  {
    if pairs != [] {
      KeysAreHosts(m, pairs, pairs[0].host);
    } else {
      forall host ensures host !in m {
        KeysAreHosts(m, pairs, host);
      }
    }
  }

  // ------------------------------------------------------------------ deciding a key

  /** The presented key and what decides about it. */
  datatype Offer = Offer(keyType: string, keyData: seq<byte>)

  /** Only an entry of the right type with readable key data decides. */
  predicate Decisive(ps: Primitives, key: KnownHost, offer: Offer) {
    key.keyType == offer.keyType && ps.decode(key.keyData).Some?
  }

  function Compare(ps: Primitives, key: KnownHost, offer: Offer): Verdict
    requires Decisive(ps, key, offer)
  {
    var known := ps.decode(key.keyData).value;
    if known == offer.keyData then Verified
    else Mismatch("SHA256:" + ps.fingerprint(known), "SHA256:" + ps.fingerprint(offer.keyData))
  }

  /** A walk over all pairs of the file, stopping at the first that names the host and decides. */
  function Scan(ps: Primitives, pairs: seq<Pair>, host: string, offer: Offer): Option<Verdict> {
    if pairs == [] then None
    else if pairs[0].host == host && Decisive(ps, pairs[0].key, offer) then Some(Compare(ps, pairs[0].key, offer))
    else Scan(ps, pairs[1..], host, offer)
  }

  /** Does this pair decide about the host? */
  predicate Decides(ps: Primitives, p: Pair, host: string, offer: Offer) {
    p.host == host && Decisive(ps, p.key, offer)
  }

  /** The scan finds exactly the first deciding pair. */
  lemma {:induction false} ScanIsFirst(ps: Primitives, pairs: seq<Pair>, host: string, offer: Offer) returns (i: nat)
    ensures i <= |pairs| && forall j :: 0 <= j < i ==> !Decides(ps, pairs[j], host, offer)
    ensures i < |pairs| ==> Decides(ps, pairs[i], host, offer)
    ensures Scan(ps, pairs, host, offer)
         == if i == |pairs| then None else Some(Compare(ps, pairs[i].key, offer))
  {
    if pairs == [] || Decides(ps, pairs[0], host, offer) {
      i := 0;
    } else {
      var j := ScanIsFirst(ps, pairs[1..], host, offer);
      i := j + 1;
      forall k | 0 <= k < i ensures !Decides(ps, pairs[k], host, offer) {
        if k > 0 { assert pairs[k] == pairs[1..][k - 1]; }
      }
    }
  }

  function DecideFrom(ps: Primitives, keys: seq<KnownHost>, offer: Offer): Option<Verdict> {
    if keys == [] then None
    else if Decisive(ps, keys[0], offer) then Some(Compare(ps, keys[0], offer))
    else DecideFrom(ps, keys[1..], offer)
  }

  lemma {:induction false} DecideAppend(ps: Primitives, a: seq<KnownHost>, b: seq<KnownHost>, offer: Offer)
    ensures DecideFrom(ps, a + b, offer)
         == if DecideFrom(ps, a, offer).Some? then DecideFrom(ps, a, offer) else DecideFrom(ps, b, offer)
  {
    if a == [] {
      assert a + b == b;
    } else {
      assert (a + b)[1..] == a[1..] + b;
      DecideAppend(ps, a[1..], b, offer);
    }
  }

  lemma {:induction false} ScanAppend(ps: Primitives, a: seq<Pair>, b: seq<Pair>, host: string, offer: Offer)
    ensures Scan(ps, a + b, host, offer)
         == if Scan(ps, a, host, offer).Some? then Scan(ps, a, host, offer) else Scan(ps, b, host, offer)
  {
    if a == [] {
      assert a + b == b;
    } else {
      assert (a + b)[1..] == a[1..] + b;
      ScanAppend(ps, a[1..], b, host, offer);
    }
  }

  /** The index agrees with the walk: looking only at the keys grouped under a host decides as walking
      the whole file. */
  lemma {:induction false} IndexAgreesWithScan(ps: Primitives, pairs: seq<Pair>, host: string, offer: Offer)
    ensures DecideFrom(ps, Select(pairs, host), offer) == Scan(ps, pairs, host, offer)
  {
    if pairs != [] {
      var n := |pairs| - 1;
      IndexAgreesWithScan(ps, pairs[..n], host, offer);
      ScanAppend(ps, pairs[..n], [pairs[n]], host, offer);
      assert pairs == pairs[..n] + [pairs[n]];
      var last := if pairs[n].host == host then [pairs[n].key] else [];
      DecideAppend(ps, Select(pairs[..n], host), last, offer);
      assert [pairs[n]][1..] == [] && (last != [] ==> last[1..] == []);
    }
  }

  // ------------------------------------------------------------------ the whole verification

  /** Is this stored name the hash of that host? */
  predicate HashMatches(ps: Primitives, stored: string, host: string) {
    && HASHED <= stored
    && var parts := Split(stored, '|');
       && |parts| == 4
       && ps.decode(parts[2]).Some?
       && ps.decode(parts[3]).Some?
       && ps.hmac(ps.decode(parts[2]).value, host) == ps.decode(parts[3]).value
  }

  /** The hashed names in the order of the map, the first that matches and decides. */
  function HashedScan(ps: Primitives, pairs: seq<Pair>, order: seq<string>, host: string, offer: Offer): Option<Verdict> {
    if order == [] then None
    else if HashMatches(ps, order[0], host) && Scan(ps, pairs, order[0], offer).Some? then
      Scan(ps, pairs, order[0], offer)
    else HashedScan(ps, pairs, order[1..], host, offer)
  }

  function Bracketed(host: string, port: nat): string {
    "[" + host + "]:" + Decimal.NatToString(port)
  }

  function Variants(ps: Primitives, host: string, port: nat): seq<string> {
    var lower := ps.lower(host);
    [host]
    + (if port != 22 then [Bracketed(host, port)] else [])
    + (if lower != host then [lower] else [])
    + (if lower != host && port != 22 then [Bracketed(lower, port)] else [])
  }

  /** For each variant in turn the walk over the file, then the hashed names. */
  function ScanVariants(ps: Primitives, pairs: seq<Pair>, order: seq<string>, variants: seq<string>, offer: Offer): Verdict {
    if variants == [] then UnknownHost
    else if Scan(ps, pairs, variants[0], offer).Some? then Scan(ps, pairs, variants[0], offer).value
    else if HashedScan(ps, pairs, order, variants[0], offer).Some? then HashedScan(ps, pairs, order, variants[0], offer).value
    else ScanVariants(ps, pairs, order, variants[1..], offer)
  }

  function PinnedVerdict(ps: Primitives, pin: string, keyData: seq<byte>): Verdict {
    var expected := TrimStartMatches(TrimStartMatches(pin, "SHA256:"), "sha256:");
    if ps.fingerprint(keyData) == expected then Verified
    else Mismatch("SHA256:" + expected, "SHA256:" + ps.fingerprint(keyData))
  }

  /** The verification as a walk over the lines of the file, without an index. */
  function LinearVerdict(ps: Primitives, config: Config, pairs: seq<Pair>, order: seq<string>, host: string, port: nat,
                         offer: Offer): Verdict {
    if config.ignoreHostKey then Skipped
    else if config.fingerprint.Some? then PinnedVerdict(ps, config.fingerprint.value, offer.keyData)
    else if pairs == [] then if config.knownHostsPath.Some? then UnknownHost else NotConfigured
    else ScanVariants(ps, pairs, order, Variants(ps, host, port), offer)
  }

  /** `order` lists each key of the map once. */
  ghost predicate Enumerates(order: seq<string>, m: map<string, seq<KnownHost>>) {
    && (forall host :: host in order <==> host in m)
    && (forall i, j :: 0 <= i < j < |order| ==> order[i] != order[j])
  }

  method GenerateHostnameVariants(ps: Primitives, host: string, port: nat) returns (variants: seq<string>)
    ensures variants == Variants(ps, host, port)
  {
    variants := [host];
    if port != 22 {
      variants := variants + [Bracketed(host, port)];
    }
    var lower := ps.lower(host);
    if lower != host {
      variants := variants + [lower];
      if port != 22 {
        variants := variants + [Bracketed(lower, port)];
      }
    }
  }

  /** The loop over the keys of one name, which both the plain and the hashed lookup run. */
  method DecideKeys(ps: Primitives, keys: seq<KnownHost>, offer: Offer) returns (v: Option<Verdict>)
    ensures v == DecideFrom(ps, keys, offer)
  {
    for i := 0 to |keys|
      invariant DecideFrom(ps, keys, offer) == DecideFrom(ps, keys[i..], offer)
    {
      assert keys[i..][1..] == keys[i + 1..];
      if keys[i].keyType != offer.keyType {
        continue;
      }
      match ps.decode(keys[i].keyData)
      case None => continue;
      case Some(known) =>
        if known == offer.keyData {
          return Some(Verified);
        }
        return Some(Mismatch("SHA256:" + ps.fingerprint(known), "SHA256:" + ps.fingerprint(offer.keyData)));
    }
    return None;
  }

  class HostKeyVerifier {
    const config: Config
    const primitives: Primitives
    var knownHosts: map<string, seq<KnownHost>>
    /** The pairs of the file in the order of its lines. */
    ghost var pairs: seq<Pair>

    ghost predicate Valid()
      reads this
    {
      Indexes(knownHosts, pairs)
    }

    /** `content` is what reading the file gives; it is read only when a path is configured. */
    constructor (config: Config, primitives: Primitives, content: Result<string>)
      ensures Valid() && this.config == config && this.primitives == primitives
      ensures pairs == if config.knownHostsPath.Some? && content.Ok? then AllPairs(Lines(content.value)) else []
    {
      this.config, this.primitives := config, primitives;
      knownHosts, pairs := map[], [];
      new;
      if config.knownHostsPath.Some? {
        var _ := LoadKnownHosts(content);
      }
    }

    /** The loaded map is the index of the file, and as many pairs are counted as it holds. */
    method LoadKnownHosts(content: Result<string>) returns (count: Result<nat>)
      requires knownHosts == map[] && pairs == []
      modifies this
      ensures Valid()
      ensures content.Err? ==> count.Err? && pairs == []
      ensures content.Ok? ==> pairs == AllPairs(Lines(content.value)) && count == Ok(|pairs|)
    {
      if content.Err? {
        return Err(content.error);
      }
      var n := 0;
      var lines := Lines(content.value);
      for i := 0 to |lines|
        invariant Valid() && n == |pairs| && pairs == AllPairs(lines[..i])
      {
        assert lines[..i + 1][..i] == lines[..i];
        var line := Trim(lines[i]);
        if line == "" || line[0] == '#' {
          continue;
        }
        var entry := ParseKnownHostsLine(line);
        if entry.Some? {
          n := n + |entry.value.0|;
          AddEntry(entry.value.0, entry.value.1);
        }
      }
      assert lines[..|lines|] == lines;
      return Ok(n);
    }

    /** One line: its key goes under each of its names. */
    method AddEntry(names: seq<string>, key: KnownHost)
      requires Valid()
      modifies this
      ensures Valid() && pairs == old(pairs) + PairUp(names, key)
    {
      ghost var added := PairUp(names, key);
      for k := 0 to |names|
        invariant Valid() && pairs == old(pairs) + added[..k]
      {
        IndexesOneMore(knownHosts, pairs, Pair(names[k], key));
        assert added[..k + 1] == added[..k] + [added[k]];
        knownHosts := knownHosts[names[k] := Lookup(knownHosts, names[k]) + [key]];
        pairs := pairs + [Pair(names[k], key)];
      }
      assert added[..|names|] == added;
    }

    /** Verification through the index is the walk over the file. */
    method Verify(order: seq<string>, host: string, port: nat, offer: Offer) returns (v: Verdict)
      requires Valid() && Enumerates(order, knownHosts)
      ensures v == LinearVerdict(primitives, config, pairs, order, host, port, offer)
    {
      if config.ignoreHostKey {
        return Skipped;
      }
      if config.fingerprint.Some? {
        var expected := TrimStartMatches(TrimStartMatches(config.fingerprint.value, "SHA256:"), "sha256:");
        if primitives.fingerprint(offer.keyData) == expected {
          return Verified;
        } else {
          return Mismatch("SHA256:" + expected, "SHA256:" + primitives.fingerprint(offer.keyData));
        }
      }
      EmptyIff(knownHosts, pairs);
      if knownHosts == map[] {
        if config.knownHostsPath.Some? {
          return UnknownHost;
        }
        return NotConfigured;
      }
      var variants := GenerateHostnameVariants(primitives, host, port);
      ghost var expected := ScanVariants(primitives, pairs, order, variants, offer);
      for i := 0 to |variants|
        invariant expected == ScanVariants(primitives, pairs, order, variants[i..], offer)
      {
        assert variants[i..][1..] == variants[i + 1..];
        IndexAgreesWithScan(primitives, pairs, variants[i], offer);
        assert Lookup(knownHosts, variants[i]) == Select(pairs, variants[i]);
        if variants[i] in knownHosts {
          var decided := DecideKeys(primitives, knownHosts[variants[i]], offer);
          if decided.Some? {
            return decided.value;
          }
        }
        var hashed := CheckHashedEntries(order, variants[i], offer);
        if hashed.Some? {
          return hashed.value;
        }
      }
      return UnknownHost;
    }

    method CheckHashedEntries(order: seq<string>, host: string, offer: Offer) returns (v: Option<Verdict>)
      requires Valid() && Enumerates(order, knownHosts)
      ensures v == HashedScan(primitives, pairs, order, host, offer)
    {
      for i := 0 to |order|
        invariant HashedScan(primitives, pairs, order, host, offer)
               == HashedScan(primitives, pairs, order[i..], host, offer)
      {
        var stored := order[i];
        assert order[i..][0] == stored && order[i..][1..] == order[i + 1..];
        assert stored in knownHosts;
        if !(HASHED <= stored) {
          continue;
        }
        var parts := Split(stored, '|');
        if |parts| != 4 {
          continue;
        }
        var salt, hash := primitives.decode(parts[2]), primitives.decode(parts[3]);
        if salt.None? || hash.None? {
          continue;
        }
        if primitives.hmac(salt.value, host) == hash.value {
          IndexAgreesWithScan(primitives, pairs, stored, offer);
          assert Lookup(knownHosts, stored) == Select(pairs, stored);
          var decided := DecideKeys(primitives, knownHosts[stored], offer);
          if decided.Some? {
            return decided;
          }
        }
      }
      return None;
    }
  }

  // ------------------------------------------------------------------ what a line says

  predicate AreNames(names: seq<string>) {
    names != [] && forall n <- names :: IsWord(n) && ',' !in n
  }

  lemma {:induction false} SplitJoin(names: seq<string>, sep: string)
    requires AreNames(names) && sep == [',']
    ensures Split(Join(names, sep), ',') == names
  {
    if |names| == 1 {
      SplitNone(names[0], ',');
    } else {
      var rest := Join(names[1..], sep);
      SplitJoin(names[1..], sep);
      SplitHead(names[0], ',', rest);
    }
  }

  lemma {:induction false} JoinIsWord(names: seq<string>, sep: string)
    requires AreNames(names) && sep == [',']
    ensures IsWord(Join(names, sep))
  {
    if |names| > 1 {
      JoinIsWord(names[1..], sep);
      WordsTogether(names[0], sep);
      WordsTogether(names[0] + sep, Join(names[1..], sep));
    }
  }

  lemma WordsTogether(a: string, b: string)
    ensures IsWord(a) && IsWord(b) ==> IsWord(a + b)
  {
  }

  /** A line of three words is read as these words. */
  lemma ThreeWords(first: string, keyType: string, keyData: string, gap: string)
    requires IsWord(first) && IsWord(keyType) && IsWord(keyData) && gap == [' ']
    ensures var line := first + gap + (keyType + gap + keyData);
            && Trim(line) == line && line != "" && line[0] == first[0]
            && SplitWhitespace(line) == [first, keyType, keyData]
  {
    var rest := keyType + gap + keyData;
    var line := first + gap + rest;
    WordThenRest(first, ' ', rest);
    WordThenRest(keyType, ' ', keyData);
    OneWord(keyData);
    assert line[0] == first[0] && line[|line| - 1] == keyData[|keyData| - 1];
    TrimIsTight(line);
  }

  /** A line that lists names, a type and a key gives each name that key. */
  lemma LineIsRead(names: seq<string>, keyType: string, keyData: string, sep: string, gap: string)
    requires AreNames(names) && IsWord(keyType) && IsWord(keyData) && sep == [','] && gap == [' ']
    requires !("#" <= names[0]) && !(HASHED <= Join(names, sep))
    ensures LinePairs(Join(names, sep) + gap + (keyType + gap + keyData))
         == PairUp(NormalizeAll(names), KnownHost(keyType, keyData))
  {
    SplitJoin(names, sep);
    JoinIsWord(names, sep);
    ThreeWords(Join(names, sep), keyType, keyData, gap);
    assert IsWord(names[0]) && Join(names, sep)[0] == names[0][0];
    assert names[0][..1] == [names[0][0]];
  }

  lemma BracketsAreCut(host: string, port: nat)
    requires ']' !in host
    ensures NormalizeHostname(Bracketed(host, port)) == host
  {
    var b := Bracketed(host, port);
    assert forall k :: 0 <= k <= |host| ==> b[k] == ("[" + host)[k];
    assert b[|host| + 1] == ']';
    IndexOfUnique(b, ']', |host| + 1);
    assert b[1..|host| + 1] == host;
  }

  // ------------------------------------------------------------------ brackets and ports

  /** A stored name that starts with a bracket has no closing one. */
  predicate StoredForm(name: string) {
    name != "" && name[0] == '[' ==> ']' !in name
  }

  predicate AllStoredForm(pairs: seq<Pair>) {
    forall p <- pairs :: StoredForm(p.host)
  }

  lemma NormalizedIsStoredForm(host: string)
    ensures StoredForm(NormalizeHostname(host))
  {
    if host != "" && host[0] == '[' && ']' in host {
      var i := IndexOf(host, ']');
      assert forall k :: 0 <= k < |host[1..i]| ==> host[1..i][k] == host[..i][k + 1];
    }
  }

  lemma LineIsStoredForm(line: string)
    ensures AllStoredForm(LinePairs(line))
  {
    var parts := SplitWhitespace(Trim(line));
    if |parts| >= 3 {
      var hosts := Split(parts[0], ',');
      forall i | 0 <= i < |hosts| ensures StoredForm(NormalizeAll(hosts)[i]) {
        NormalizedIsStoredForm(hosts[i]);
      }
    }
  }

  lemma {:induction false} FileIsStoredForm(lines: seq<string>)
    ensures AllStoredForm(AllPairs(lines))
  {
    if lines != [] {
      FileIsStoredForm(lines[..|lines| - 1]);
      LineIsStoredForm(lines[|lines| - 1]);
    }
  }

  /** No plain entry of any file answers to a bracketed variant. */
  lemma BracketedNeverFound(ps: Primitives, lines: seq<string>, host: string, port: nat, offer: Offer)
    ensures Scan(ps, AllPairs(lines), Bracketed(host, port), offer) == None
  {
    FileIsStoredForm(lines);
    var i := ScanIsFirst(ps, AllPairs(lines), Bracketed(host, port), offer);
    assert Bracketed(host, port)[|host| + 1] == ']';
  }

  predicate NoHashed(pairs: seq<Pair>) {
    forall p <- pairs :: !(HASHED <= p.host)
  }

  lemma {:induction false} NothingHashed(ps: Primitives, pairs: seq<Pair>, order: seq<string>, host: string, offer: Offer)
    requires NoHashed(pairs)
    ensures HashedScan(ps, pairs, order, host, offer) == None
  {
    if order != [] {
      NothingHashed(ps, pairs, order[1..], host, offer);
      if HASHED <= order[0] {
        var _ := ScanIsFirst(ps, pairs, order[0], offer);
      }
    }
  }

  function PlainVerdict(ps: Primitives, pairs: seq<Pair>, host: string, offer: Offer): Verdict {
    if Scan(ps, pairs, host, offer).Some? then Scan(ps, pairs, host, offer).value
    else if Scan(ps, pairs, ps.lower(host), offer).Some? then Scan(ps, pairs, ps.lower(host), offer).value
    else UnknownHost
  }

  /** Without hashed names, only the host and its lowercase form are ever found, in this order: the
      port has no influence. */
  lemma PortIsIgnored(ps: Primitives, lines: seq<string>, order: seq<string>, host: string, port: nat, offer: Offer)
    requires NoHashed(AllPairs(lines))
    ensures ScanVariants(ps, AllPairs(lines), order, Variants(ps, host, port), offer)
         == PlainVerdict(ps, AllPairs(lines), host, offer)
  {
    var pairs := AllPairs(lines);
    var lower := ps.lower(host);
    forall v ensures HashedScan(ps, pairs, order, v, offer) == None {
      NothingHashed(ps, pairs, order, v, offer);
    }
    BracketedNeverFound(ps, lines, host, port, offer);
    BracketedNeverFound(ps, lines, lower, port, offer);
    ScanUpToFour(ps, pairs, order, Variants(ps, host, port), offer);
    VariantList(ps, host, port);
  }

  /** The variants, case by case. */
  lemma VariantList(ps: Primitives, host: string, port: nat)
    ensures var lower, vs := ps.lower(host), Variants(ps, host, port);
            vs == if lower == host then (if port == 22 then [host] else [host, Bracketed(host, port)])
                  else if port == 22 then [host, lower]
                  else [host, Bracketed(host, port), lower, Bracketed(lower, port)]
  {
  }

  /** Spells out the walk over the at most four variants when nothing is hashed. */
  lemma ScanUpToFour(ps: Primitives, pairs: seq<Pair>, order: seq<string>, vs: seq<string>, offer: Offer)
    requires 1 <= |vs| <= 4 && forall v :: HashedScan(ps, pairs, order, v, offer) == None
    ensures ScanVariants(ps, pairs, order, vs, offer)
         == if Scan(ps, pairs, vs[0], offer).Some? then Scan(ps, pairs, vs[0], offer).value
            else if |vs| > 1 && Scan(ps, pairs, vs[1], offer).Some? then Scan(ps, pairs, vs[1], offer).value
            else if |vs| > 2 && Scan(ps, pairs, vs[2], offer).Some? then Scan(ps, pairs, vs[2], offer).value
            else if |vs| > 3 && Scan(ps, pairs, vs[3], offer).Some? then Scan(ps, pairs, vs[3], offer).value
            else UnknownHost
  {
    ScanHead(ps, pairs, order, vs, offer);
    if |vs| > 1 {
      ScanHead(ps, pairs, order, vs[1..], offer);
      if |vs| > 2 {
        ScanHead(ps, pairs, order, vs[1..][1..], offer);
        if |vs| > 3 {
          ScanHead(ps, pairs, order, vs[1..][1..][1..], offer);
        }
      }
    }
  }

  lemma ScanHead(ps: Primitives, pairs: seq<Pair>, order: seq<string>, vs: seq<string>, offer: Offer)
    requires vs != [] && HashedScan(ps, pairs, order, vs[0], offer) == None
    ensures ScanVariants(ps, pairs, order, vs, offer)
         == if Scan(ps, pairs, vs[0], offer).Some? then Scan(ps, pairs, vs[0], offer).value
            else if |vs| == 1 then UnknownHost else ScanVariants(ps, pairs, order, vs[1..], offer)
  {
  }

  /** An entry that was recorded for one port decides about the host on every port. */
  lemma EntryServesEveryPort(ps: Primitives, host: string, recorded: nat, keyType: string, keyData: string, order: seq<string>,
                             port: nat, offer: Offer)
    requires IsWord(host) && ',' !in host && ']' !in host && !(HASHED <= host) && IsWord(keyType) && IsWord(keyData)
    requires Decisive(ps, KnownHost(keyType, keyData), offer)
    ensures var pairs := AllPairs([Bracketed(host, recorded) + " " + (keyType + " " + keyData)]);
            ScanVariants(ps, pairs, order, Variants(ps, host, port), offer) == Compare(ps, KnownHost(keyType, keyData), offer)
  {
    var name, key := Bracketed(host, recorded), KnownHost(keyType, keyData);
    var line := name + " " + (keyType + " " + keyData);
    BracketedIsWord(host, recorded);
    assert Join([name], ",") == name;
    LineIsRead([name], keyType, keyData, ",", " ");
    BracketsAreCut(host, recorded);
    assert PairUp(NormalizeAll([name]), key) == [Pair(host, key)];
    assert AllPairs([line]) == [Pair(host, key)] by {
      assert [line][..0] == [];
    }
    PortIsIgnored(ps, [line], order, host, port, offer);
  }

  lemma BracketedIsWord(host: string, port: nat)
    requires IsWord(host) && ',' !in host
    ensures IsWord(Bracketed(host, port)) && ',' !in Bracketed(host, port) && !(HASHED <= Bracketed(host, port))
    ensures Bracketed(host, port)[0] == '['
  {
    var digits := Decimal.NatToString(port);
    assert forall k :: 0 <= k < |digits| ==> Decimal.IsDigit(digits[k]);
    assert HASHED[0] == '|';
  }

  /** When neither the host nor its lowercase form is known at all, a hashed bracketed name decides
      exactly on the ports other than 22 whose bracketed form it matches. */
  lemma PortEntersByHashedNamesIff(ps: Primitives, lines: seq<string>, order: seq<string>, host: string, port: nat, offer: Offer)
    requires forall v <- [host, ps.lower(host)] ::
               Scan(ps, AllPairs(lines), v, offer) == None && HashedScan(ps, AllPairs(lines), order, v, offer) == None
    ensures ScanVariants(ps, AllPairs(lines), order, Variants(ps, host, port), offer) != UnknownHost
       <==> port != 22
            && (|| HashedScan(ps, AllPairs(lines), order, Bracketed(host, port), offer).Some?
                || HashedScan(ps, AllPairs(lines), order, Bracketed(ps.lower(host), port), offer).Some?)
  {
    var pairs, lower := AllPairs(lines), ps.lower(host);
    BracketedNeverFound(ps, lines, host, port, offer);
    BracketedNeverFound(ps, lines, lower, port, offer);
    assert host in [host, lower] && lower in [host, lower];
    KnownIff(ps, pairs, order, Variants(ps, host, port), offer);
    VariantsAre(ps, host, port);
    forall v | v in [Bracketed(host, port), Bracketed(lower, port)]
      ensures Scan(ps, pairs, v, offer) == None
    {
    }
  }

  /** The variants as a set. */
  lemma VariantsAre(ps: Primitives, host: string, port: nat)
    ensures forall v :: v in Variants(ps, host, port) <==>
              || v == host
              || v == ps.lower(host)
              || (port != 22 && (v == Bracketed(host, port) || v == Bracketed(ps.lower(host), port)))
  {
  }

  /** Some variant is found in the file or among the hashed names. */
  lemma {:induction false} KnownIff(ps: Primitives, pairs: seq<Pair>, order: seq<string>, vs: seq<string>, offer: Offer)
    ensures ScanVariants(ps, pairs, order, vs, offer) != UnknownHost
       <==> exists v <- vs :: Scan(ps, pairs, v, offer).Some? || HashedScan(ps, pairs, order, v, offer).Some?
  {
    if vs != [] {
      DecidedIsKnown(ps, pairs, order, vs[0], offer);
      KnownIff(ps, pairs, order, vs[1..], offer);
      assert forall v <- vs :: v == vs[0] || v in vs[1..];
    }
  }

  lemma DecidedIsKnown(ps: Primitives, pairs: seq<Pair>, order: seq<string>, host: string, offer: Offer)
    ensures Scan(ps, pairs, host, offer) != Some(UnknownHost) && HashedScan(ps, pairs, order, host, offer) != Some(UnknownHost)
  {
    var _ := ScanIsFirst(ps, pairs, host, offer);
    if HashedScan(ps, pairs, order, host, offer).Some? {
      var _ := HashedByPair(ps, pairs, order, host, offer);
    }
  }

  /** Hashed names do see the port: a name hashed with its port is found on that port, and on no port
      whose variants it does not match. */
  lemma HashedNamesSeeThePort(ps: Primitives, stored: string, key: KnownHost, host: string, port: nat, other: nat, offer: Offer)
    requires Decisive(ps, key, offer) && port != 22
    requires HashMatches(ps, stored, Bracketed(host, port)) && stored != host && !HashMatches(ps, stored, host)
    requires forall v <- Variants(ps, host, other) :: v != stored && !HashMatches(ps, stored, v)
    ensures ScanVariants(ps, [Pair(stored, key)], [stored], Variants(ps, host, port), offer) == Compare(ps, key, offer)
    ensures ScanVariants(ps, [Pair(stored, key)], [stored], Variants(ps, host, other), offer) == UnknownHost
  {
    var pairs, order := [Pair(stored, key)], [stored];
    OneHashedName(ps, stored, key, offer);
    KnownIff(ps, pairs, order, Variants(ps, host, other), offer);
    var at := Variants(ps, host, port);
    assert at[0] == host && at[1] == at[1..][0] == Bracketed(host, port);
  }

  lemma OneHashedName(ps: Primitives, stored: string, key: KnownHost, offer: Offer)
    requires Decisive(ps, key, offer)
    ensures forall v: string ::
              && Scan(ps, [Pair(stored, key)], v, offer) == (if v == stored then Some(Compare(ps, key, offer)) else None)
              && HashedScan(ps, [Pair(stored, key)], [stored], v, offer)
              == (if HashMatches(ps, stored, v) then Some(Compare(ps, key, offer)) else None)
  {
    forall v: string
      ensures Scan(ps, [Pair(stored, key)], v, offer) == (if v == stored then Some(Compare(ps, key, offer)) else None)
      ensures HashedScan(ps, [Pair(stored, key)], [stored], v, offer)
           == (if HashMatches(ps, stored, v) then Some(Compare(ps, key, offer)) else None)
    {
      assert [Pair(stored, key)][1..] == [] && [stored][1..] == [];
    }
  }

  // ------------------------------------------------------------------ what verification guarantees

  /** With a configured file, no pin and no override, only a host whose very key is stored is let in. */
  lemma AllowedOnlyWithStoredKey(ps: Primitives, config: Config, pairs: seq<Pair>, order: seq<string>, host: string, port: nat,
                                 offer: Offer) returns (i: nat)
    requires !config.ignoreHostKey && config.fingerprint == None && config.knownHostsPath.Some? && !config.allowUnknownHosts
    requires IsAllowed(LinearVerdict(ps, config, pairs, order, host, port, offer), config)
    ensures i < |pairs| && pairs[i].key.keyType == offer.keyType && ps.decode(pairs[i].key.keyData) == Some(offer.keyData)
    ensures var vs := Variants(ps, host, port);
            pairs[i].host in vs || exists v <- vs :: HashMatches(ps, pairs[i].host, v)
  {
    i := VerifiedByPair(ps, pairs, order, Variants(ps, host, port), offer);
  }

  lemma {:induction false} VerifiedByPair(ps: Primitives, pairs: seq<Pair>, order: seq<string>, vs: seq<string>, offer: Offer)
      returns (i: nat)
    requires !ScanVariants(ps, pairs, order, vs, offer).UnknownHost?
    requires !ScanVariants(ps, pairs, order, vs, offer).Mismatch?
    ensures i < |pairs| && pairs[i].key.keyType == offer.keyType && ps.decode(pairs[i].key.keyData) == Some(offer.keyData)
    ensures pairs[i].host in vs || exists v <- vs :: HashMatches(ps, pairs[i].host, v)
  {
    if Scan(ps, pairs, vs[0], offer).Some? {
      i := ScanIsFirst(ps, pairs, vs[0], offer);
    } else if HashedScan(ps, pairs, order, vs[0], offer).Some? {
      i := HashedByPair(ps, pairs, order, vs[0], offer);
    } else {
      i := VerifiedByPair(ps, pairs, order, vs[1..], offer);
    }
  }

  lemma {:induction false} HashedByPair(ps: Primitives, pairs: seq<Pair>, order: seq<string>, host: string, offer: Offer)
      returns (i: nat)
    requires HashedScan(ps, pairs, order, host, offer).Some?
    ensures i < |pairs| && Decisive(ps, pairs[i].key, offer) && HashMatches(ps, pairs[i].host, host)
    ensures HashedScan(ps, pairs, order, host, offer) == Some(Compare(ps, pairs[i].key, offer))
  {
    if HashMatches(ps, order[0], host) && Scan(ps, pairs, order[0], offer).Some? {
      i := ScanIsFirst(ps, pairs, order[0], offer);
    } else {
      i := HashedByPair(ps, pairs, order[1..], host, offer);
    }
  }

  function Repeat(s: string, n: nat): string {
    if n == 0 then "" else s + Repeat(s, n - 1)
  }

  lemma {:induction false} TrimmedPrefixes(s: string, p: string) returns (n: nat)
    requires p != ""
    ensures s == Repeat(p, n) + TrimStartMatches(s, p) && !(p <= TrimStartMatches(s, p))
    decreases |s|
  {
    if p <= s {
      var m := TrimmedPrefixes(s[|p|..], p);
      n := m + 1;
      PrefixInFront(s, p, Repeat(p, m), TrimStartMatches(s[|p|..], p));
    } else {
      n := 0;
      assert s == "" + s;
    }
  }

  lemma PrefixInFront(s: string, p: string, repeated: string, rest: string)
    requires p <= s && s[|p|..] == repeated + rest
    ensures s == (p + repeated) + rest
  {
    assert s == p + s[|p|..];
    AppendAssoc(p, repeated, rest);
  }

  lemma {:induction false} TrimRepeated(p: string, n: nat, rest: string)
    requires p != "" && !(p <= rest)
    ensures TrimStartMatches(Repeat(p, n) + rest, p) == rest
  {
    if n == 0 {
      assert "" + rest == rest;
    } else {
      AppendAssoc(p, Repeat(p, n - 1), rest);
      TrimRepeated(p, n - 1, rest);
      var s := p + (Repeat(p, n - 1) + rest);
      assert p <= s && s[|p|..] == Repeat(p, n - 1) + rest;
    }
  }

  /** The fingerprint, behind any number of uppercase and then lowercase prefixes. */
  predicate PinSays(pin: string, a: nat, b: nat, bare: string) {
    pin == Repeat("SHA256:", a) + (Repeat("sha256:", b) + bare)
  }

  /** A pin is met exactly by the fingerprint, written bare or after any number of uppercase and then
      lowercase prefixes. Fingerprints are base64 text, so they have no colon. */
  lemma PinnedIff(ps: Primitives, pin: string, keyData: seq<byte>)
    requires ':' !in ps.fingerprint(keyData)
    ensures PinnedVerdict(ps, pin, keyData) == Verified
       <==> exists a: nat, b: nat :: PinSays(pin, a, b, ps.fingerprint(keyData))
  {
    var upper, lower, bare := "SHA256:", "sha256:", ps.fingerprint(keyData);
    if PinnedVerdict(ps, pin, keyData) == Verified {
      var a := TrimmedPrefixes(pin, upper);
      var b := TrimmedPrefixes(TrimStartMatches(pin, upper), lower);
      assert PinSays(pin, a, b, bare);
    }
    forall a: nat, b: nat | PinSays(pin, a, b, bare)
      ensures PinnedVerdict(ps, pin, keyData) == Verified
    {
      NotAPrefix(lower, bare);
      TrimRepeated(lower, b, bare);
      UpperIsNoPrefix(b, bare);
      TrimRepeated(upper, a, Repeat(lower, b) + bare);
    }
  }

  lemma NotAPrefix(p: string, s: string)
    requires |p| == 7 && p[6] == ':' && ':' !in s
    ensures !(p <= s)
  {
    if |s| >= 7 {
      assert s[6] != ':';
    }
  }

  lemma UpperIsNoPrefix(b: nat, bare: string)
    requires ':' !in bare
    ensures !("SHA256:" <= Repeat("sha256:", b) + bare)
  {
    if b == 0 {
      assert "" + bare == bare;
      NotAPrefix("SHA256:", bare);
    } else {
      assert (Repeat("sha256:", b) + bare)[0] == 's';
    }
  }

  // ------------------------------------------------------------------ the order of the map

  /** All hashed names that match the host and decide give the same verdict. */
  ghost predicate HashedAgree(ps: Primitives, pairs: seq<Pair>, order: seq<string>, host: string, offer: Offer) {
    forall a, b ::
      && a in order && b in order
      && HashMatches(ps, a, host) && HashMatches(ps, b, host)
      && Scan(ps, pairs, a, offer).Some? && Scan(ps, pairs, b, offer).Some?
      ==> Scan(ps, pairs, a, offer) == Scan(ps, pairs, b, offer)
  }

  /** The hashed lookup answers with some matching name that decides, and with none only when no name does. */
  lemma {:induction false} HashedWitness(ps: Primitives, pairs: seq<Pair>, order: seq<string>, host: string, offer: Offer)
      returns (a: string)
    ensures HashedScan(ps, pairs, order, host, offer).Some?
        ==> a in order && HashMatches(ps, a, host) && HashedScan(ps, pairs, order, host, offer) == Scan(ps, pairs, a, offer)
    ensures HashedScan(ps, pairs, order, host, offer).None?
        ==> forall b <- order :: HashMatches(ps, b, host) ==> Scan(ps, pairs, b, offer).None?
  {
    if order == [] {
      a := "";
    } else if HashMatches(ps, order[0], host) && Scan(ps, pairs, order[0], offer).Some? {
      a := order[0];
    } else {
      a := HashedWitness(ps, pairs, order[1..], host, offer);
    }
  }

  ghost predicate Reordered(a: seq<string>, b: seq<string>) {
    multiset(a) == multiset(b)
  }

  lemma ReorderedMember(a: seq<string>, b: seq<string>, n: string)
    requires Reordered(a, b)
    ensures n in a <==> n in b
  {
    assert n in a <==> n in multiset(a);
    assert n in b <==> n in multiset(b);
  }

  ghost predicate OrderIrrelevant(ps: Primitives, pairs: seq<Pair>, order: seq<string>, host: string, offer: Offer) {
    forall other | Reordered(order, other) ::
      HashedScan(ps, pairs, other, host, offer) == HashedScan(ps, pairs, order, host, offer)
  }

  /** The order of the map does not matter exactly when the matching hashed names agree. */
  lemma OrderIrrelevantIff(ps: Primitives, pairs: seq<Pair>, order: seq<string>, host: string, offer: Offer)
    ensures HashedAgree(ps, pairs, order, host, offer)
       <==> OrderIrrelevant(ps, pairs, order, host, offer)
  {
    if HashedAgree(ps, pairs, order, host, offer) {
      forall other | Reordered(order, other)
        ensures HashedScan(ps, pairs, other, host, offer) == HashedScan(ps, pairs, order, host, offer)
      {
        var a := HashedWitness(ps, pairs, order, host, offer);
        var b := HashedWitness(ps, pairs, other, host, offer);
        ReorderedMember(order, other, a);
        ReorderedMember(order, other, b);
      }
    } else {
      var a, b :|
        && a in order && b in order
        && HashMatches(ps, a, host) && HashMatches(ps, b, host)
        && Scan(ps, pairs, a, offer).Some? && Scan(ps, pairs, b, offer).Some?
        && Scan(ps, pairs, a, offer) != Scan(ps, pairs, b, offer);
      var first := ToFront(order, a);
      var second := ToFront(order, b);
      assert HashedScan(ps, pairs, first, host, offer) == Scan(ps, pairs, a, offer);
      assert HashedScan(ps, pairs, second, host, offer) == Scan(ps, pairs, b, offer);
    }
  }

  /** The same names with `a` moved to the front. */
  lemma ToFront(order: seq<string>, a: string) returns (moved: seq<string>)
    requires a in order
    ensures Reordered(order, moved) && moved != [] && moved[0] == a
  {
    var i := IndexOf(order, a);
    moved := [a] + order[..i] + order[i + 1..];
    assert order == order[..i] + [a] + order[i + 1..];
  }
}
