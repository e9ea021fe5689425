/**
 The rows that show the mapping of an Elasticsearch index: one per field, with its dotted path.

 A JSON object is the sequence of its members in the order in which the map yields them. The JSON
 parser is not part of this model.
 */
module MappingRows {
  import opened Prelude
  import opened Text

  datatype Json = Str(text: string) | Obj(members: seq<Member>) | Other

  datatype Member = Member(name: string, value: Json)

  datatype Row = Row(path: string, fieldType: string)

  /** The number of members in all depths. */
  function Size(members: seq<Member>): nat
    decreases members
  {
    if members == [] then 0
    else 1 + (if members[0].value.Obj? then Size(members[0].value.members) else 0) + Size(members[1..])
  }

  function Find(members: seq<Member>, name: string): (r: Option<Json>)
    ensures r.Some? && r.value.Obj? ==> Size(r.value.members) < Size(members)
    ensures r.None? <==> forall m <- members :: m.name != name
  {
    if members == [] then None
    else if members[0].name == name then Some(members[0].value)
    else
      assert forall m <- members :: m == members[0] || m in members[1..];
      Find(members[1..], name)
  }

  /** `Value::get` with a key: nothing but an object has members. */
  function Get(value: Json, key: string): Option<Json> {
    if value.Obj? then Find(value.members, key) else None
  }

  function TypeName(value: Json): string {
    var t := Get(value, "type");
    if t.Some? && t.value.Str? then t.value.text else "object"
  }

  /** The nested properties of a field; none when there is no such object. */
  function Nested(value: Json): (r: seq<Member>)
    ensures value.Obj? ==> Size(r) <= Size(value.members)
    ensures !value.Obj? ==> r == []
  {
    var p := Get(value, "properties");
    if p.Some? && p.value.Obj? then p.value.members else []
  }

  function Extend(prefix: string, name: string): string {
    if prefix == "" then name else prefix + "." + name
  }

  /** The rows of these members below a prefix, each followed by the rows of its own properties. */
  function Rows(members: seq<Member>, prefix: string): seq<Row>
    decreases Size(members)
  {
    if members == [] then []
    else
      var path := Extend(prefix, members[0].name);
      [Row(path, TypeName(members[0].value))] + Rows(Nested(members[0].value), path) + Rows(members[1..], prefix)
  }

  /** The rows of one member and its properties. */
  function MemberRows(m: Member, prefix: string): seq<Row> {
    [Row(Extend(prefix, m.name), TypeName(m.value))] + Rows(Nested(m.value), Extend(prefix, m.name))
  }

  lemma {:induction false} RowsAppend(a: seq<Member>, b: seq<Member>, prefix: string)
    ensures Rows(a + b, prefix) == Rows(a, prefix) + Rows(b, prefix)
  {
    if a == [] {
      assert a + b == b;
    } else {
      assert (a + b)[1..] == a[1..] + b;
      RowsAppend(a[1..], b, prefix);
    }
  }

  lemma {:induction false} SizeOfMember(members: seq<Member>, i: nat)
    requires i < |members|
    ensures members[i].value.Obj? ==> Size(members[i].value.members) < Size(members)
  {
    if i > 0 {
      SizeOfMember(members[1..], i - 1);
    }
  }

  method FlattenMappingProperties(members: seq<Member>, prefix: string, rows: seq<Row>) returns (out: seq<Row>)
    ensures out == rows + Rows(members, prefix)
    decreases Size(members)
  {
    out := rows;
    for i := 0 to |members|
      invariant out == rows + Rows(members[..i], prefix)
    {
      var value := members[i].value;
      var path := if prefix == "" then members[i].name else prefix + "." + members[i].name;
      SizeOfMember(members, i);
      OneMore(members, i, prefix);
      Regroup(rows, Rows(members[..i], prefix), [Row(path, TypeName(value))], Rows(Nested(value), path));
      out := out + [Row(path, TypeName(value))];
      var nested := Get(value, "properties");
      if nested.Some? && nested.value.Obj? {
        out := FlattenMappingProperties(nested.value.members, path, out);
      }
    }
    assert members[..|members|] == members;
  }

  lemma Regroup<T>(a: seq<T>, b: seq<T>, c: seq<T>, d: seq<T>)
    ensures (a + b) + c + d == a + (b + (c + d))
    ensures (a + b) + c == (a + b) + c + []
  {
  }

  lemma OneMore(members: seq<Member>, i: nat, prefix: string)
    requires i < |members|
    ensures Rows(members[..i + 1], prefix) == Rows(members[..i], prefix) + MemberRows(members[i], prefix)
  {
    assert members[..i + 1] == members[..i] + [members[i]];
    RowsAppend(members[..i], [members[i]], prefix);
    assert [members[i]][1..] == [];
  }

  // ------------------------------------------------------------------ types and properties

  /** The member at `i` is the first of this name. */
  predicate IsFirstOf(members: seq<Member>, i: nat, name: string) {
    i < |members| && members[i].name == name && forall j :: 0 <= j < i ==> members[j].name != name
  }

  /** An object with this member. */
  ghost predicate Has(value: Json, name: string, v: Json) {
    value.Obj? && exists i: nat :: IsFirstOf(value.members, i, name) && value.members[i].value == v
  }

  lemma {:induction false} Found(members: seq<Member>, name: string) returns (i: nat)
    ensures i <= |members| && forall j :: 0 <= j < i ==> members[j].name != name
    ensures i < |members| ==> members[i].name == name
    ensures Find(members, name) == if i < |members| then Some(members[i].value) else None
  {
    if members == [] || members[0].name == name {
      i := 0;
    } else {
      var j := Found(members[1..], name);
      i := j + 1;
      assert forall k :: 0 < k < |members| ==> members[k] == members[1..][k - 1];
    }
  }

  lemma GetIff(value: Json, name: string, v: Json)
    ensures Get(value, name) == Some(v) <==> Has(value, name, v)
  {
    if value.Obj? {
      var i := Found(value.members, name);
      if i < |value.members| {
        assert IsFirstOf(value.members, i, name);
      }
      forall j: nat | IsFirstOf(value.members, j, name)
        ensures j == i
      {
      }
    }
  }

  /** The type shown is the text of the member `type`, and `object` for a field without such a text. */
  lemma TypeNameIff(value: Json, t: string)
    ensures TypeName(value) == t
       <==> Has(value, "type", Str(t)) || (t == "object" && forall s :: !Has(value, "type", Str(s)))
  {
    forall s
      ensures Get(value, "type") == Some(Str(s)) <==> Has(value, "type", Str(s))
    {
      GetIff(value, "type", Str(s));
    }
  }

  /** The fields below are the members of the member `properties`; there are none where that is no object. */
  lemma NestedIff(value: Json, inner: seq<Member>)
    ensures Nested(value) == inner
       <==> Has(value, "properties", Obj(inner)) || (inner == [] && forall m :: !Has(value, "properties", Obj(m)))
  {
    forall m
      ensures Get(value, "properties") == Some(Obj(m)) <==> Has(value, "properties", Obj(m))
    {
      GetIff(value, "properties", Obj(m));
    }
  }

  // ------------------------------------------------------------------ addresses

  /** The fields as lists of names from the root, in preorder. */
  function Addresses(members: seq<Member>): seq<seq<string>>
    decreases Size(members)
  {
    if members == [] then []
    else
      [[members[0].name]] + Below(members[0].name, Addresses(Nested(members[0].value))) + Addresses(members[1..])
  }

  function Below(name: string, addresses: seq<seq<string>>): (r: seq<seq<string>>)
    ensures |r| == |addresses|
    ensures forall i :: 0 <= i < |r| ==> r[i] == [name] + addresses[i]
  {
    if addresses == [] then [] else [[name] + addresses[0]] + Below(name, addresses[1..])
  }

  /** The field at an address. */
  function At(members: seq<Member>, address: seq<string>): Option<Json>
    requires address != []
    decreases |address|
  {
    var v := Find(members, address[0]);
    if v.None? || |address| == 1 then v else At(Nested(v.value), address[1..])
  }

  /** The path that the prefixes build up along an address. */
  function Path(prefix: string, address: seq<string>): string
    decreases |address|
  {
    if address == [] then prefix else Path(Extend(prefix, address[0]), address[1..])
  }

  /** An object has each name once, in all depths. */
  predicate DistinctNames(members: seq<Member>)
    decreases Size(members)
  {
    members == [] ||
    (&& (forall m <- members[1..] :: m.name != members[0].name)
     && DistinctNames(Nested(members[0].value))
     && DistinctNames(members[1..]))
  }

  lemma AddressesNonEmpty(members: seq<Member>)
    ensures forall a <- Addresses(members) :: a != []
    decreases Size(members)
  {
    if members != [] {
      AddressesNonEmpty(members[1..]);
    }
  }

  /** Row by row, the table lists the addresses: each path is that of the address. */
  lemma {:induction false} RowIsAddress(members: seq<Member>, prefix: string, i: nat)
    requires i < |Addresses(members)|
    ensures |Rows(members, prefix)| == |Addresses(members)|
    ensures Rows(members, prefix)[i].path == Path(prefix, Addresses(members)[i])
    decreases Size(members)
  {
    var name, nested := members[0].name, Nested(members[0].value);
    SameLength(members, prefix);
    SameLength(nested, Extend(prefix, name));
    var n := |Addresses(nested)|;
    if i == 0 {
    } else if i <= n {
      RowIsAddress(nested, Extend(prefix, name), i - 1);
      var a := Addresses(nested)[i - 1];
      assert Addresses(members)[i] == [name] + a && ([name] + a)[1..] == a;
    } else {
      RowIsAddress(members[1..], prefix, i - 1 - n);
      assert Addresses(members)[i] == Addresses(members[1..])[i - 1 - n];
    }
  }

  lemma {:induction false} SameLength(members: seq<Member>, prefix: string)
    ensures |Rows(members, prefix)| == |Addresses(members)|
    decreases Size(members)
  {
    if members != [] {
      SameLength(Nested(members[0].value), Extend(prefix, members[0].name));
      SameLength(members[1..], prefix);
    }
  }

  /** The addresses are exactly those at which there is a field. */
  lemma {:induction false} AddressesAreFields(members: seq<Member>, address: seq<string>)
    requires DistinctNames(members) && address != []
    ensures address in Addresses(members) <==> At(members, address).Some?
    decreases Size(members)
  {
    if members != [] {
      var name, nested, rest := members[0].name, Nested(members[0].value), members[1..];
      AddressesAreFields(rest, address);
      InThreeParts(members, address);
      if address[0] == name {
        FirstNameMissing(rest, address);
        if |address| > 1 {
          AddressesAreFields(nested, address[1..]);
        } else {
          AddressesNonEmpty(nested);
        }
      } else {
        AtRest(members, address);
      }
    }
  }

  lemma InThreeParts(members: seq<Member>, address: seq<string>)
    requires members != [] && address != []
    ensures address in Addresses(members) <==>
            || address == [members[0].name]
            || (address[0] == members[0].name && address[1..] in Addresses(Nested(members[0].value)))
            || address in Addresses(members[1..])
  {
    BelowMember(members[0].name, Addresses(Nested(members[0].value)), address);
  }

  lemma BelowMember(name: string, inner: seq<seq<string>>, address: seq<string>)
    requires address != []
    ensures address in Below(name, inner) <==> address[0] == name && address[1..] in inner
  {
    if address in Below(name, inner) {
      var i :| 0 <= i < |inner| && Below(name, inner)[i] == address;
      assert ([name] + inner[i])[1..] == inner[i];
    }
    if address[0] == name && address[1..] in inner {
      var i :| 0 <= i < |inner| && inner[i] == address[1..];
      assert Below(name, inner)[i] == [name] + inner[i] == address;
    }
  }

  lemma {:induction false} FirstNameMissing(members: seq<Member>, address: seq<string>)
    requires address != [] && forall m <- members :: m.name != address[0]
    ensures address !in Addresses(members) && At(members, address) == None
    decreases Size(members)
  {
    if members != [] {
      FirstNameMissing(members[1..], address);
      InThreeParts(members, address);
    }
  }

  lemma AtRest(members: seq<Member>, address: seq<string>)
    requires members != [] && address != [] && address[0] != members[0].name
    ensures At(members, address) == At(members[1..], address)
  {
  }

  /** The addresses below the first name and the others differ. */
  lemma OtherFirstName(members: seq<Member>, a: seq<string>)
    requires members != [] && DistinctNames(members) && a in Addresses(members[1..])
    ensures a != [] && a[0] != members[0].name
  {
    AddressesNonEmpty(members[1..]);
    if a[0] == members[0].name {
      FirstNameMissing(members[1..], a);
    }
  }

  // ------------------------------------------------------------------ paths

  /** The pieces of all names at their dots. */
  function Pieces(names: seq<string>): (r: seq<string>)
    ensures |r| >= |names|
  {
    if names == [] then [] else Split(names[0], '.') + Pieces(names[1..])
  }

  lemma {:induction false} PiecesIff(names: seq<string>)
    ensures Pieces(names) == names <==> forall n <- names :: '.' !in n
    ensures Pieces(names) == names <==> |Pieces(names)| == |names|
  {
    if names != [] {
      PiecesIff(names[1..]);
      assert names == [names[0]] + names[1..];
      assert forall n <- names :: n == names[0] || n in names[1..];
      if |Pieces(names)| == |names| {
        assert |Split(names[0], '.')| == 1;
      }
    }
  }

  /** Below a prefix that is not empty the path cuts into the pieces of the prefix and of the names. */
  lemma {:induction false} PathPieces(prefix: string, address: seq<string>)
    requires prefix != ""
    ensures Split(Path(prefix, address), '.') == Split(prefix, '.') + Pieces(address)
    ensures |Path(prefix, address)| >= |prefix| + |address|
    decreases |address|
  {
    if address != [] {
      PathPieces(Extend(prefix, address[0]), address[1..]);
      SplitConcat(prefix, '.', address[0]);
      AppendAssoc(Split(prefix, '.'), Split(address[0], '.'), Pieces(address[1..]));
    }
  }

  /** Without an empty first name, a path cuts into the pieces of its names. */
  lemma PathCuts(address: seq<string>)
    requires address != [] && address[0] != ""
    ensures Split(Path("", address), '.') == Pieces(address)
  {
    PathPieces(address[0], address[1..]);
  }

  lemma {:induction false} JoinedPieces(s: string, c: char, sep: string)
    requires sep == [c]
    ensures Join(Split(s, c), sep) == s
    decreases |s|
  {
    var i := IndexOf(s, c);
    if i < |s| {
      var head, tail := s[..i], s[i + 1..];
      JoinedPieces(tail, c, sep);
      JoinStep([head] + Split(tail, c), sep);
      assert ([head] + Split(tail, c))[1..] == Split(tail, c);
      assert Join([head] + Split(tail, c), sep) == head + (sep + Join(Split(tail, c), sep));
      CutAt(s, i);
      AppendAssoc(head, sep, tail);
    }
  }

  lemma {:induction false} PathIsShort(prefix: string, address: seq<string>)
    requires address != []
    ensures |Path(prefix, address)| <= (if prefix == "" then 0 else |prefix| + 1) + |Join(address, ".")|
    decreases |address|
  {
    if |address| > 1 {
      PathIsShort(Extend(prefix, address[0]), address[1..]);
    }
  }

  /** Cutting a path at its dots gives back the names along it exactly when no name has a dot and the
      first is not empty, or is the only one. */
  lemma PathRoundTripIff(address: seq<string>)
    requires address != []
    ensures Split(Path("", address), '.') == address
       <==> (forall n <- address :: '.' !in n) && (address[0] != "" || |address| == 1)
  {
    if address[0] != "" {
      PathCuts(address);
      PiecesIff(address);
    } else if |address| == 1 {
      SplitNone("", '.');
    } else {
      PathIsShort("", address[1..]);
      JoinedPieces(Path("", address), '.', ".");
      JoinStep(address, ".");
    }
  }

  /** Two fields below named ones share a path exactly when their names fall into the same pieces. */
  lemma SamePathIff(a: seq<string>, b: seq<string>)
    requires a != [] && a[0] != "" && b != [] && b[0] != ""
    ensures Path("", a) == Path("", b) <==> Pieces(a) == Pieces(b)
  {
    PathCuts(a);
    PathCuts(b);
    JoinedPieces(Path("", a), '.', ".");
    JoinedPieces(Path("", b), '.', ".");
  }

  /** Names that a field can have without blurring the paths. */
  predicate PlainNames(members: seq<Member>)
    decreases Size(members)
  {
    members == [] ||
    (&& members[0].name != "" && '.' !in members[0].name
     && PlainNames(Nested(members[0].value)) && PlainNames(members[1..]))
  }

  predicate PlainAddress(address: seq<string>) {
    address != [] && forall n <- address :: n != "" && '.' !in n
  }

  lemma {:induction false} PlainAddresses(members: seq<Member>)
    requires PlainNames(members)
    ensures forall a <- Addresses(members) :: PlainAddress(a)
    decreases Size(members)
  {
    if members != [] {
      PlainAddresses(Nested(members[0].value));
      PlainAddresses(members[1..]);
      AddressesNonEmpty(members);
      forall a | a in Addresses(members) ensures PlainAddress(a) {
        InThreeParts(members, a);
        assert a == [a[0]] + a[1..];
      }
    }
  }

  /** The row shows the type of the field at the address. */
  predicate Shows(row: Row, members: seq<Member>, address: seq<string>) {
    address != [] && At(members, address).Some? && row.fieldType == TypeName(At(members, address).value)
  }

  lemma ShowsInner(row: Row, members: seq<Member>, a: seq<string>)
    requires members != [] && Shows(row, Nested(members[0].value), a)
    ensures Shows(row, members, [members[0].name] + a)
  {
    assert ([members[0].name] + a)[1..] == a;
  }

  lemma ShowsRest(row: Row, members: seq<Member>, a: seq<string>)
    requires members != [] && Shows(row, members[1..], a) && a[0] != members[0].name
    ensures Shows(row, members, a)
  {
    AtRest(members, a);
  }

  lemma DistinctParts(members: seq<Member>)
    ensures members != [] && DistinctNames(members)
            ==> DistinctNames(Nested(members[0].value)) && DistinctNames(members[1..])
  {
  }

  predicate PairwiseDistinct(addresses: seq<seq<string>>) {
    forall i, j :: 0 <= i < j < |addresses| ==> addresses[i] != addresses[j]
  }

  lemma BelowDistinct(name: string, inner: seq<seq<string>>)
    requires PairwiseDistinct(inner) && forall a <- inner :: a != []
    ensures PairwiseDistinct(Below(name, inner))
    ensures forall a <- Below(name, inner) :: a != [name] && a != [] && a[0] == name
  {
    var all := Below(name, inner);
    forall j | 0 <= j < |all|
      ensures all[j] != [name] && all[j][0] == name
    {
      assert inner[j] in inner;
    }
    forall i, j | 0 <= i < j < |all|
      ensures all[i] != all[j]
    {
      assert inner[j] in inner;
      assert ([name] + inner[i])[1..] == inner[i] && ([name] + inner[j])[1..] == inner[j];
      assert [name] != [name] + inner[j];
    }
  }

  lemma DistinctAppend(a: seq<seq<string>>, b: seq<seq<string>>)
    requires PairwiseDistinct(a) && PairwiseDistinct(b) && forall x <- a :: x !in b
    ensures PairwiseDistinct(a + b)
  {
    forall i, j | 0 <= i < j < |a + b|
      ensures (a + b)[i] != (a + b)[j]
    {
      if i < |a| <= j {
        assert a[i] in a && b[j - |a|] in b;
      }
    }
  }

  /** No address is listed twice. */
  lemma {:induction false} AddressesDistinct(members: seq<Member>)
    requires DistinctNames(members)
    ensures PairwiseDistinct(Addresses(members))
    decreases Size(members)
  {
    if members != [] {
      var nested, rest := Nested(members[0].value), members[1..];
      DistinctParts(members);
      AddressesDistinct(nested);
      AddressesDistinct(rest);
      AddressesNonEmpty(nested);
      forall a | a in Addresses(rest) ensures a != [] && a[0] != members[0].name {
        OtherFirstName(members, a);
      }
      var first, below := [[members[0].name]], Below(members[0].name, Addresses(nested));
      BelowDistinct(members[0].name, Addresses(nested));
      DistinctAppend(first, below);
      DistinctAppend(first + below, Addresses(rest));
    }
  }

  // ------------------------------------------------------------------ preorder

  /** The place of a name among its siblings. */
  function Position(members: seq<Member>, name: string): nat {
    if members == [] || members[0].name == name then 0 else 1 + Position(members[1..], name)
  }

  function SubFields(members: seq<Member>, name: string): seq<Member> {
    var v := Find(members, name);
    if v.Some? then Nested(v.value) else []
  }

  /** In preorder, a field comes before its sub-fields, and at the first name that differs the earlier
      sibling comes first with all below it. */
  predicate Before(members: seq<Member>, a: seq<string>, b: seq<string>)
    decreases |a|
  {
    && a != [] && b != []
    && if a[0] != b[0] then Position(members, a[0]) < Position(members, b[0])
       else |b| > 1 && (|a| == 1 || Before(SubFields(members, a[0]), a[1..], b[1..]))
  }

  lemma {:induction false} BeforeIsOneWay(members: seq<Member>, a: seq<string>, b: seq<string>)
    requires Before(members, a, b)
    ensures !Before(members, b, a)
    decreases |a|
  {
    if a[0] == b[0] && |a| > 1 {
      BeforeIsOneWay(SubFields(members, a[0]), a[1..], b[1..]);
    }
  }

  predicate Ordered(members: seq<Member>, addresses: seq<seq<string>>) {
    forall i, j :: 0 <= i < j < |addresses| ==> Before(members, addresses[i], addresses[j])
  }

  lemma BeforeInner(members: seq<Member>, a: seq<string>, b: seq<string>)
    requires members != [] && Before(Nested(members[0].value), a, b)
    ensures Before(members, [members[0].name] + a, [members[0].name] + b)
  {
    var name := members[0].name;
    assert ([name] + a)[1..] == a && ([name] + b)[1..] == b;
    assert SubFields(members, name) == Nested(members[0].value);
  }

  lemma InnerOrdered(members: seq<Member>, inner: seq<seq<string>>)
    requires members != [] && Ordered(Nested(members[0].value), inner)
    ensures Ordered(members, Below(members[0].name, inner))
  {
    var all := Below(members[0].name, inner);
    forall i, j | 0 <= i < j < |all|
      ensures Before(members, all[i], all[j])
    {
      BeforeInner(members, inner[i], inner[j]);
    }
  }

  lemma RestOrdered(members: seq<Member>, rest: seq<seq<string>>)
    requires members != [] && Ordered(members[1..], rest) && forall a <- rest :: a != [] && a[0] != members[0].name
    ensures Ordered(members, rest)
  {
    forall i, j | 0 <= i < j < |rest|
      ensures Before(members, rest[i], rest[j])
    {
      assert rest[i] in rest && rest[j] in rest;
      assert SubFields(members, rest[i][0]) == SubFields(members[1..], rest[i][0]);
    }
  }

  lemma OrderedAppend(members: seq<Member>, a: seq<seq<string>>, b: seq<seq<string>>)
    requires Ordered(members, a) && Ordered(members, b)
    requires forall x <- a, y <- b :: Before(members, x, y)
    ensures Ordered(members, a + b)
  {
    forall i, j | 0 <= i < j < |a + b|
      ensures Before(members, (a + b)[i], (a + b)[j])
    {
      if i < |a| <= j {
        assert a[i] in a && b[j - |a|] in b;
      }
    }
  }

  lemma HeadFirst(members: seq<Member>, x: seq<string>, y: seq<string>)
    requires members != [] && x != [] && x[0] == members[0].name && y != [] && (y[0] != members[0].name || (|x| == 1 < |y|))
    ensures Before(members, x, y)
  {
  }

  lemma {:induction false} AddressesOrdered(members: seq<Member>)
    requires DistinctNames(members)
    ensures Ordered(members, Addresses(members))
    decreases Size(members)
  {
    if members != [] {
      var name, nested, rest := members[0].name, Nested(members[0].value), Addresses(members[1..]);
      var first, below := [[name]], Below(name, Addresses(nested));
      DistinctParts(members);
      AddressesOrdered(nested);
      AddressesOrdered(members[1..]);
      AddressesNonEmpty(nested);
      forall a | a in rest ensures a != [] && a[0] != name {
        OtherFirstName(members, a);
      }
      AddressesDistinct(nested);
      BelowDistinct(name, Addresses(nested));
      InnerOrdered(members, Addresses(nested));
      RestOrdered(members, rest);
      HeadThenBelow(members, below);
      OrderedAppend(members, first, below);
      forall x, y | x in first + below && y in rest ensures Before(members, x, y) {
        HeadFirst(members, x, y);
      }
      OrderedAppend(members, first + below, rest);
    }
  }

  lemma HeadThenBelow(members: seq<Member>, below: seq<seq<string>>)
    requires members != [] && forall y <- below :: y != [] && y != [members[0].name] && y[0] == members[0].name
    ensures forall x <- [[members[0].name]], y <- below :: Before(members, x, y)
  {
    forall y | y in below ensures Before(members, [members[0].name], y) {
      assert y == [y[0]] + y[1..];
      HeadFirst(members, [members[0].name], y);
    }
  }

  /** The rows are in preorder: one row comes before another exactly when its field does. */
  lemma PreorderIff(members: seq<Member>, i: nat, j: nat)
    requires DistinctNames(members) && i < |Addresses(members)| && j < |Addresses(members)| && i != j
    ensures i < j <==> Before(members, Addresses(members)[i], Addresses(members)[j])
  {
    AddressesOrdered(members);
    if j < i {
      BeforeIsOneWay(members, Addresses(members)[j], Addresses(members)[i]);
    }
  }

  // ------------------------------------------------------------------ what the rows show

  /** Row by row, the rows show the fields at the addresses. */
  predicate AllShow(rows: seq<Row>, members: seq<Member>, addresses: seq<seq<string>>) {
    |rows| == |addresses| && forall i :: 0 <= i < |rows| ==> Shows(rows[i], members, addresses[i])
  }

  lemma ShownTogether(members: seq<Member>, head: Row, innerRows: seq<Row>, inner: seq<seq<string>>, restRows: seq<Row>,
                      rest: seq<seq<string>>)
    requires members != [] && head.fieldType == TypeName(members[0].value)
    requires AllShow(innerRows, Nested(members[0].value), inner) && AllShow(restRows, members[1..], rest)
    requires forall a <- rest :: a != [] && a[0] != members[0].name
    ensures AllShow([head] + innerRows + restRows, members, [[members[0].name]] + Below(members[0].name, inner) + rest)
  {
    var rows, all := [head] + innerRows + restRows, [[members[0].name]] + Below(members[0].name, inner) + rest;
    forall i | 0 <= i < |rows|
      ensures Shows(rows[i], members, all[i])
    {
      if i == 0 {
      } else if i <= |inner| {
        ShowsInner(innerRows[i - 1], members, inner[i - 1]);
      } else {
        var k := i - 1 - |inner|;
        assert rest[k] in rest;
        ShowsRest(restRows[k], members, rest[k]);
      }
    }
  }

  /** The table shows the fields at the addresses. */
  lemma {:induction false} RowsShowFields(members: seq<Member>, prefix: string)
    requires DistinctNames(members)
    ensures AllShow(Rows(members, prefix), members, Addresses(members))
    decreases Size(members)
  {
    if members != [] {
      var nested, rest := Nested(members[0].value), members[1..];
      var path := Extend(prefix, members[0].name);
      DistinctParts(members);
      RowsShowFields(nested, path);
      RowsShowFields(rest, prefix);
      forall a | a in Addresses(rest) ensures a != [] && a[0] != members[0].name {
        OtherFirstName(members, a);
      }
      ShownTogether(members, Row(path, TypeName(members[0].value)), Rows(nested, path), Addresses(nested),
                    Rows(rest, prefix), Addresses(rest));
    }
  }

  /** No field is left out: every address has a row with its path and type. */
  lemma EveryFieldHasARow(members: seq<Member>, address: seq<string>) returns (i: nat)
    requires DistinctNames(members) && address != [] && At(members, address).Some?
    ensures i < |Rows(members, "")|
    ensures Rows(members, "")[i] == Row(Path("", address), TypeName(At(members, address).value))
  {
    AddressesAreFields(members, address);
    i :| 0 <= i < |Addresses(members)| && Addresses(members)[i] == address;
    RowsShowFields(members, "");
    RowIsAddress(members, "", i);
  }

  /** The table names every field: the path of a row, cut at its dots, leads to the field whose type the
      row shows, and no two rows have the same path. */
  lemma PathNamesField(members: seq<Member>, i: nat)
    requires PlainNames(members) && DistinctNames(members) && i < |Rows(members, "")|
    ensures var row := Rows(members, "")[i];
            var field := At(members, Split(row.path, '.'));
            field.Some? && row.fieldType == TypeName(field.value)
    ensures forall j :: 0 <= j < |Rows(members, "")| && j != i ==> Rows(members, "")[j].path != Rows(members, "")[i].path
  {
    RowHasAddress(members, i);
    RowsShowFields(members, "");
    forall j | 0 <= j < |Rows(members, "")| && j != i
      ensures Rows(members, "")[j].path != Rows(members, "")[i].path
    {
      RowHasAddress(members, j);
      AddressesDistinct(members);
    }
  }

  /** A field with one sub-field. */
  function Nest(m: Member): Json {
    Obj([Member("properties", Obj([m]))])
  }

  lemma RowsOfThree(x: string, a: string, b: string)
    ensures Rows([Member(x, Other), Member(a, Nest(Member(b, Other)))], "")
         == [Row(x, "object"), Row(a, "object"), Row(Extend(a, b), "object")]
  {
    var inner := Member(b, Other);
    assert Get(Nest(inner), "properties") == Some(Obj([inner])) && Get(Nest(inner), "type") == None;
    assert [inner][1..] == [] && Rows([inner], a) == [Row(Extend(a, b), "object")];
    var second := [Member(a, Nest(inner))];
    assert second[1..] == [] && Rows(second, "") == [Row(a, "object")] + [Row(Extend(a, b), "object")];
    assert [Member(x, Other), Member(a, Nest(inner))][1..] == second;
  }

  /** Two fields share a path when a name reads like a path, or is dropped because it is empty. */
  lemma PathsClash(a: string, b: string)
    ensures var rows := Rows([Member(Extend(a, b), Other), Member(a, Nest(Member(b, Other)))], "");
            |rows| == 3 && rows[0].path == rows[2].path
  {
    RowsOfThree(Extend(a, b), a, b);
  }

  lemma RowHasAddress(members: seq<Member>, i: nat)
    requires PlainNames(members) && i < |Rows(members, "")|
    ensures i < |Addresses(members)| && Addresses(members)[i] != []
    ensures Split(Rows(members, "")[i].path, '.') == Addresses(members)[i]
  {
    SameLength(members, "");
    RowIsAddress(members, "", i);
    PlainAddresses(members);
    var a := Addresses(members)[i];
    assert a in Addresses(members) && PlainAddress(a) && a[0] in a;
    PathRoundTripIff(Addresses(members)[i]);
  }
}
