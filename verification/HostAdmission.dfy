/**
 Who is let in, without index, map or walk: a configuration and a file determine a list of stored keys, and the
 first of them that can decide does. A pin is told by its text.
 */
module HostAdmission {
  import opened HostKey
  import opened Prelude
  import opened Text
  import Decimal

  // ------------------------------------------------------------------ pins

  ghost predicate IsPinFor(pin: string, fingerprint: string) {
    exists a: nat, b: nat :: PinSays(pin, a, b, fingerprint)
  }

  /** What a pin names: what is left when no prefix can be taken off any more. */
  ghost predicate Names(pin: string, bare: string) {
    !("sha256:" <= bare)
    && exists a: nat, b: nat :: PinSays(pin, a, b, bare) && !("SHA256:" <= Repeat("sha256:", b) + bare)
  }

  lemma PinNames(pin: string, expected: string)
    requires expected == TrimStartMatches(TrimStartMatches(pin, "SHA256:"), "sha256:")
    ensures Names(pin, expected)
  {
    var a := TrimmedPrefixes(pin, "SHA256:");
    var b := TrimmedPrefixes(TrimStartMatches(pin, "SHA256:"), "sha256:");
    assert PinSays(pin, a, b, expected);
  }

  /** With a pin and no override, the connection is let in if and only if the pin is the fingerprint of the key behind
      such prefixes, whatever else is configured and stored. Any other pin gives a mismatch between the fingerprint it
      names and the one presented, and the connection is refused, also where unknown hosts are allowed. */
  lemma PinDecides(ps: Primitives, config: Config, pairs: seq<Pair>, order: seq<string>, host: string, port: nat,
                   offer: Offer) returns (expected: string)
    requires !config.ignoreHostKey && config.fingerprint.Some? && ':' !in ps.fingerprint(offer.keyData)
    ensures Names(config.fingerprint.value, expected)
    ensures var v := LinearVerdict(ps, config, pairs, order, host, port, offer);
            var fingerprint := ps.fingerprint(offer.keyData);
            && (IsAllowed(v, config) <==> IsPinFor(config.fingerprint.value, fingerprint))
            && (!IsAllowed(v, config) ==> v == Mismatch("SHA256:" + expected, "SHA256:" + fingerprint))
  {
    var pin := config.fingerprint.value;
    expected := TrimStartMatches(TrimStartMatches(pin, "SHA256:"), "sha256:");
    PinNames(pin, expected);
    PinnedIff(ps, pin, offer.keyData);
  }

  // ------------------------------------------------------------------ the stored keys that are asked

  /** The keys stored under the hashed names that match, in the order of the map. */
  function HashedKeys(ps: Primitives, pairs: seq<Pair>, order: seq<string>, host: string): seq<KnownHost> {
    if order == [] then []
    else
      (if HashMatches(ps, order[0], host) then Select(pairs, order[0]) else [])
      + HashedKeys(ps, pairs, order[1..], host)
  }

  /** Name after name: the keys stored under it, in file order, and then those under its hashes. */
  function Asked(ps: Primitives, pairs: seq<Pair>, order: seq<string>, names: seq<string>): seq<KnownHost> {
    if names == [] then []
    else Select(pairs, names[0]) + HashedKeys(ps, pairs, order, names[0]) + Asked(ps, pairs, order, names[1..])
  }

  /** A key can decide when it has the type of the one presented and its data can be read. */
  predicate CanDecide(ps: Primitives, key: KnownHost, offer: Offer) {
    key.keyType == offer.keyType && ps.decode(key.keyData) != None
  }

  /** The first that can decide is at `i`, or none can and `i` is the length. */
  predicate IsFirst(ps: Primitives, keys: seq<KnownHost>, offer: Offer, i: nat) {
    && i <= |keys|
    && (forall j :: 0 <= j < i ==> !CanDecide(ps, keys[j], offer))
    && (i < |keys| ==> CanDecide(ps, keys[i], offer))
  }

  /** What the key at `i` says about the one presented. */
  function Says(ps: Primitives, keys: seq<KnownHost>, offer: Offer, i: nat): Verdict
    requires IsFirst(ps, keys, offer, i)
  {
    if i == |keys| then UnknownHost
    else if ps.decode(keys[i].keyData).value == offer.keyData then Verified
    else
      var stored := ps.decode(keys[i].keyData).value;
      Mismatch("SHA256:" + ps.fingerprint(stored), "SHA256:" + ps.fingerprint(offer.keyData))
  }

  function OrUnknown(v: Option<Verdict>): Verdict {
    if v.Some? then v.value else UnknownHost
  }

  lemma {:induction false} FirstDecides(ps: Primitives, keys: seq<KnownHost>, offer: Offer) returns (i: nat)
    ensures IsFirst(ps, keys, offer, i) && OrUnknown(DecideFrom(ps, keys, offer)) == Says(ps, keys, offer, i)
  {
    if keys == [] || Decisive(ps, keys[0], offer) {
      i := 0;
    } else {
      var j := FirstDecides(ps, keys[1..], offer);
      i := j + 1;
      assert forall k :: 0 < k < |keys| ==> keys[k] == keys[1..][k - 1];
    }
  }

  lemma {:induction false} HashedAgrees(ps: Primitives, pairs: seq<Pair>, order: seq<string>, host: string,
                                              offer: Offer)
    ensures DecideFrom(ps, HashedKeys(ps, pairs, order, host), offer) == HashedScan(ps, pairs, order, host, offer)
  {
    if order != [] {
      HashedAgrees(ps, pairs, order[1..], host, offer);
      IndexAgreesWithScan(ps, pairs, order[0], offer);
      var here := if HashMatches(ps, order[0], host) then Select(pairs, order[0]) else [];
      DecideAppend(ps, here, HashedKeys(ps, pairs, order[1..], host), offer);
    }
  }

  lemma {:induction false} AskedDecide(ps: Primitives, pairs: seq<Pair>, order: seq<string>, names: seq<string>,
                                             offer: Offer)
    ensures OrUnknown(DecideFrom(ps, Asked(ps, pairs, order, names), offer))
         == ScanVariants(ps, pairs, order, names, offer)
  {
    if names != [] {
      var plain, hashed := Select(pairs, names[0]), HashedKeys(ps, pairs, order, names[0]);
      AskedDecide(ps, pairs, order, names[1..], offer);
      IndexAgreesWithScan(ps, pairs, names[0], offer);
      HashedAgrees(ps, pairs, order, names[0], offer);
      DecideAppend(ps, plain, hashed, offer);
      DecideAppend(ps, plain + hashed, Asked(ps, pairs, order, names[1..]), offer);
    }
  }

  /** The names that are asked for: the host and its form with the port, and the same in lower case. */
  function NamesAsked(host: string, lower: string, port: nat): seq<string> {
    var suffix := "]:" + Decimal.NatToString(port);
    if lower == host then (if port == 22 then [host] else [host, "[" + host + suffix])
    else if port == 22 then [host, lower]
    else [host, "[" + host + suffix, lower, "[" + lower + suffix]
  }

  lemma NamesAreVariants(ps: Primitives, host: string, port: nat)
    ensures Variants(ps, host, port) == NamesAsked(host, ps.lower(host), port)
  {
    VariantList(ps, host, port);
    var digits := Decimal.NatToString(port);
    AppendAssoc("[" + host, "]:", digits);
    AppendAssoc("[" + ps.lower(host), "]:", digits);
  }

  lemma {:induction false} NothingStored(ps: Primitives, order: seq<string>, host: string)
    ensures HashedKeys(ps, [], order, host) == []
  {
    if order != [] {
      NothingStored(ps, order[1..], host);
    }
  }

  lemma {:induction false} NothingAsked(ps: Primitives, order: seq<string>, names: seq<string>)
    ensures Asked(ps, [], order, names) == []
  {
    if names != [] {
      NothingStored(ps, order, names[0]);
      NothingAsked(ps, order, names[1..]);
    }
  }

  /** With a configured file and neither pin nor override: the verdict is what the first key says that can decide, of
      those asked, and the host is unknown exactly when none can. */
  lemma FirstKeyDecides(ps: Primitives, config: Config, pairs: seq<Pair>, order: seq<string>, host: string, port: nat,
                        offer: Offer) returns (i: nat)
    requires !config.ignoreHostKey && config.fingerprint == None && config.knownHostsPath.Some?
    ensures var keys := Asked(ps, pairs, order, NamesAsked(host, ps.lower(host), port));
            && IsFirst(ps, keys, offer, i)
            && LinearVerdict(ps, config, pairs, order, host, port, offer) == Says(ps, keys, offer, i)
  {
    var names := NamesAsked(host, ps.lower(host), port);
    NamesAreVariants(ps, host, port);
    AskedDecide(ps, pairs, order, names, offer);
    i := FirstDecides(ps, Asked(ps, pairs, order, names), offer);
    if pairs == [] {
      NothingAsked(ps, order, names);
    }
  }

  /** The first key that can decide is the one presented; or none can, and unknown hosts are allowed. */
  ghost predicate Admits(ps: Primitives, keys: seq<KnownHost>, offer: Offer, unknownToo: bool) {
    exists i: nat :: IsFirst(ps, keys, offer, i)
                     && if i == |keys| then unknownToo else ps.decode(keys[i].keyData) == Some(offer.keyData)
  }

  lemma OneFirst(ps: Primitives, keys: seq<KnownHost>, offer: Offer, i: nat, j: nat)
    requires IsFirst(ps, keys, offer, i) && IsFirst(ps, keys, offer, j)
    ensures i == j
  {
    if i < j {
      assert false;
    } else if j < i {
      assert false;
    }
  }

  /** The exact condition for every configuration, file and key. Nothing is stored where no file is configured. */
  lemma AdmittedIff(ps: Primitives, config: Config, pairs: seq<Pair>, order: seq<string>, host: string, port: nat,
                   offer: Offer)
    requires config.knownHostsPath == None ==> pairs == []
    requires ':' !in ps.fingerprint(offer.keyData)
    ensures IsAllowed(LinearVerdict(ps, config, pairs, order, host, port, offer), config)
       <==> || config.ignoreHostKey
            || (match config.fingerprint
                case Some(pin) => IsPinFor(pin, ps.fingerprint(offer.keyData))
                case None =>
                  || config.knownHostsPath == None
                  || Admits(ps, Asked(ps, pairs, order, NamesAsked(host, ps.lower(host), port)), offer,
                            config.allowUnknownHosts))
  {
    if !config.ignoreHostKey && config.fingerprint.Some? {
      var _ := PinDecides(ps, config, pairs, order, host, port, offer);
    } else if !config.ignoreHostKey && config.knownHostsPath.Some? {
      var keys := Asked(ps, pairs, order, NamesAsked(host, ps.lower(host), port));
      var i := FirstKeyDecides(ps, config, pairs, order, host, port, offer);
      forall j: nat | IsFirst(ps, keys, offer, j)
        ensures j == i
      {
        OneFirst(ps, keys, offer, i, j);
      }
    }
  }

  // ------------------------------------------------------------------ hashed names

  predicate IsHashOf(ps: Primitives, stored: string, host: string, salt: string, hash: string) {
    && stored == "|1|" + (salt + "|" + hash) && '|' !in salt && '|' !in hash
    && Hashes(ps, host, salt, hash)
  }

  lemma FrontAndRest(s: string, front: string)
    ensures front <= s ==> s == front + s[|front|..]
  {
  }

  lemma BehindBar(front: string, bar: char, t: string, s: string)
    requires bar !in front && s == front + [bar] + t
    ensures |Split(s, bar)| == 1 + |Split(t, bar)|
    ensures forall k :: 0 <= k < |Split(t, bar)| ==> Split(s, bar)[k + 1] == Split(t, bar)[k]
  {
    SplitHead(front, bar, t);
  }

  /** What stands behind the mark `|1|` is cut as on its own. */
  lemma BehindMark(bar: char, one: string, t: string, u: string, s: string)
    requires bar !in one && u == one + [bar] + t && s == "" + [bar] + u
    ensures |Split(s, bar)| == 2 + |Split(t, bar)|
    ensures |Split(t, bar)| == 2 ==> Split(s, bar)[2] == Split(t, bar)[0] && Split(s, bar)[3] == Split(t, bar)[1]
  {
    BehindBar(one, bar, t, u);
    BehindBar("", bar, u, s);
  }

  lemma PartsOf(t: string, c: char, a: string, b: string)
    requires Split(t, c) == [a, b]
    ensures t == a + [c] + b && c !in a && c !in b
  {
    var i := IndexOf(t, c);
    assert i < |t|;
    var tail := t[i + 1..];
    Text.CutAt(t, i);
    assert Split(tail, c) == ([t[..i]] + Split(tail, c))[1..] == [a, b][1..] == [b];
    assert a == [a, b][0] == t[..i];
    UpToIsFirst(tail, c);
  }

  lemma TwoParts(t: string, c: char, a: string, b: string)
    ensures Split(t, c) == [a, b] <==> t == a + [c] + b && c !in a && c !in b
  {
    if t == a + [c] + b && c !in a && c !in b {
      SplitHead(a, c, b);
      SplitNone(b, c);
      assert [a, b] == [a] + [b];
    }
    if Split(t, c) == [a, b] {
      PartsOf(t, c, a, b);
    }
  }

  lemma UpToIsFirst(s: string, c: char)
    ensures |Split(s, c)| == 1 <==> c !in s
    ensures |Split(s, c)| == 1 ==> Split(s, c) == [s]
  {
  }

  lemma HashedParts(ps: Primitives, t: string, stored: string, host: string)
    requires stored == "|1|" + t
    ensures HashMatches(ps, stored, host)
       <==> |Split(t, '|')| == 2 && Hashes(ps, host, Split(t, '|')[0], Split(t, '|')[1])
  {
    BehindMark('|', "1", t, "1" + ['|'] + t, stored);
  }

  predicate Hashes(ps: Primitives, host: string, salt: string, hash: string) {
    match (ps.decode(salt), ps.decode(hash))
    case (Some(key), Some(digest)) => ps.hmac(key, host) == digest
    case _ => false
  }

  lemma TwoPartsGiven(t: string, c: char)
    requires |Split(t, c)| == 2
    ensures t == Split(t, c)[0] + [c] + Split(t, c)[1] && c !in Split(t, c)[0] && c !in Split(t, c)[1]
  {
    TwoParts(t, c, Split(t, c)[0], Split(t, c)[1]);
  }

  /** A stored name is the hash of a host exactly when it is two texts behind `|1|` with a bar between them, and hashing
      the host with the first gives the second. */
  lemma HashMatchesIff(ps: Primitives, stored: string, host: string)
    ensures HashMatches(ps, stored, host) <==> exists salt, hash :: IsHashOf(ps, stored, host, salt, hash)
  {
    if HashMatches(ps, stored, host) {
      var t := stored[3..];
      FrontAndRest(stored, "|1|");
      HashedParts(ps, t, stored, host);
      TwoPartsGiven(t, '|');
      assert IsHashOf(ps, stored, host, Split(t, '|')[0], Split(t, '|')[1]);
    }
    if salt, hash :| IsHashOf(ps, stored, host, salt, hash) {
      TwoParts(salt + "|" + hash, '|', salt, hash);
      HashedParts(ps, salt + "|" + hash, stored, host);
    }
  }

  // ------------------------------------------------------------------ the lines of the file

  /** A name is cut at its brackets exactly when it has both of them. */
  lemma NormalizedName(host: string, behind: string, plain: string)
    requires ']' !in host && (plain == "" || plain[0] != '[' || ']' !in plain)
    ensures NormalizeHostname("[" + host + "]" + behind) == host && NormalizeHostname(plain) == plain
  {
    var name := "[" + host + "]" + behind;
    assert name[|host| + 1] == ']' && name[..|host| + 1] == "[" + host;
    IndexOfUnique(name, ']', |host| + 1);
    assert name[1..|host| + 1] == host;
  }

  /** A line of names gives each name the key of the line. */
  lemma PlainLine(names: seq<string>, keyType: string, keyData: string, i: nat)
    requires AreNames(names) && IsWord(keyType) && IsWord(keyData) && i < |names|
    requires !("#" <= names[0]) && !("|1|" <= Join(names, ","))
    requires !("[" <= names[i]) || ']' !in names[i]
    ensures var said := LinePairs(Join(names, ",") + " " + (keyType + " " + keyData));
            |said| == |names| && said[i] == Pair(names[i], KnownHost(keyType, keyData))
  {
    LineIsRead(names, keyType, keyData, ",", " ");
    NormalizedName("", "", names[i]);
  }

  /** A hashed name stands for itself, with all its characters. */
  lemma HashedLine(name: string, keyType: string, keyData: string)
    requires IsWord(name) && "|1|" <= name && IsWord(keyType) && IsWord(keyData)
    ensures LinePairs(name + " " + (keyType + " " + keyData)) == [Pair(name, KnownHost(keyType, keyData))]
  {
    ThreeWords(name, keyType, keyData, " ");
  }

  /** A comment says nothing, whatever it holds. */
  lemma CommentLine(text: string)
    ensures LinePairs("#" + text) == []
  {
    var i, j := TrimSplit("#" + text);
    assert ("#" + text)[0] == '#';
  }
}
