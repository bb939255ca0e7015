/** The walk from a type's spec or status field to every marked field below it
    (internal/generate/clusterserviceversion/bases/definitions/ast.go). */
module FieldWalk {
  import opened Slices

  datatype TypeIdent = TypeIdent(package: string, name: string)

  /** A struct field. `refs` are the type identifiers found in its declaration, in the
      order the inspection reports them; `segment` is absent if its struct tag does not
      parse; `body` stands for its name, doc and marker values. */
  datatype Field = Field(refs: seq<TypeIdent>, segment: Option<string>, isArray: bool, marked: bool, body: int)

  type Types = map<TypeIdent, seq<Field>>

  datatype FieldInfo = FieldInfo(field: Field, pathSegments: seq<string>)

  const INLINED_TAG := "##inline##"
  const IGNORED_TAG := "##ignore##"

  function PathSegment(f: Field): string
    requires f.segment.Some?
  {
    var s := f.segment.value;
    if f.isArray && s != IGNORED_TAG && s != INLINED_TAG then s + "[0]" else s
  }

  // ----- Reference chains: what the walk should find -----

  /** Follow reference number `ref` of the current field, to field number `field` of that type. */
  datatype Hop = Hop(ref: nat, field: nat)

  type Chain = seq<Hop>

  function Init(c: Chain): Chain
    requires c != []
  {
    c[..|c| - 1]
  }

  function Last(c: Chain): Hop
    requires c != []
  {
    c[|c| - 1]
  }

  predicate HopTo(types: Types, f: Field, h: Hop) {
    && h.ref < |f.refs| && f.refs[h.ref] in types
    && h.field < |types[f.refs[h.ref]]|
  }

  function Target(types: Types, f: Field, h: Hop): Field
    requires HopTo(types, f, h)
  {
    types[f.refs[h.ref]][h.field]
  }

  /** The field a chain of references leads to, if each hop leads to a field with a usable tag. */
  function Resolve(types: Types, root: Field, c: Chain): Option<Field> {
    if c == [] then Some(root)
    else
      var f := Resolve(types, root, Init(c));
      if f.Some? && HopTo(types, f.value, Last(c)) && Target(types, f.value, Last(c)).segment.Some?
      then Some(Target(types, f.value, Last(c)))
      else None
  }

  predicate IsChain(types: Types, root: Field, c: Chain) {
    Resolve(types, root, c).Some?
  }

  lemma ChainInit(types: Types, root: Field, c: Chain)
    requires IsChain(types, root, c) && c != []
    ensures IsChain(types, root, Init(c))
  {
  }

  /** The type that declares the field a chain leads to. */
  function Owner(types: Types, root: Field, c: Chain): TypeIdent
    requires IsChain(types, root, c) && c != []
  {
    Resolve(types, root, Init(c)).value.refs[Last(c).ref]
  }

  function Owners(types: Types, root: Field, c: Chain): (r: seq<TypeIdent>)
    requires IsChain(types, root, c)
    ensures |r| == |c|
  {
    if c == [] then [] else Owners(types, root, Init(c)) + [Owner(types, root, c)]
  }

  function Segments(types: Types, root: Field, c: Chain): seq<string>
    requires IsChain(types, root, c)
  {
    if c == [] then [] else Segments(types, root, Init(c)) + [PathSegment(Resolve(types, root, c).value)]
  }

  function Entry(types: Types, root: Field, c: Chain): FieldInfo
    requires IsChain(types, root, c)
  {
    FieldInfo(Resolve(types, root, c).value, Segments(types, root, c))
  }

  predicate AllChains(types: Types, root: Field, cs: seq<Chain>) {
    forall i :: 0 <= i < |cs| ==> IsChain(types, root, cs[i])
  }

  function Entries(types: Types, root: Field, cs: seq<Chain>): (r: seq<FieldInfo>)
    requires AllChains(types, root, cs)
    ensures |r| == |cs|
    ensures forall i :: 0 <= i < |cs| ==> r[i] == Entry(types, root, cs[i])
  {
    seq(|cs|, i requires 0 <= i < |cs| => Entry(types, root, cs[i]))
  }

  predicate MarkedIn(types: Types, root: Field, c: Chain, t: TypeIdent) {
    && c != [] && IsChain(types, root, c)
    && Owner(types, root, c) == t && Resolve(types, root, c).value.marked
  }

  function MarkedChains(types: Types, root: Field, cs: seq<Chain>, t: TypeIdent): (r: seq<Chain>)
    ensures AllChains(types, root, r)
  {
    if cs == [] then []
    else
      var rest := MarkedChains(types, root, cs[..|cs| - 1], t);
      if MarkedIn(types, root, cs[|cs| - 1], t) then rest + [cs[|cs| - 1]] else rest
  }

  /** No chain from the root passes through a type twice. */
  ghost predicate Acyclic(types: Types, root: Field) {
    forall c :: IsChain(types, root, c) ==> NoDup(Owners(types, root, c))
  }

  // ----- The order in which the walk visits chains -----

  /** Extensions of c through its r-th reference to the first k fields of the type. */
  function FieldHops(types: Types, f: Field, c: Chain, r: nat, k: nat): seq<Chain>
    requires r < |f.refs| && f.refs[r] in types && k <= |types[f.refs[r]]|
  {
    if k == 0 then []
    else FieldHops(types, f, c, r, k - 1) +
         if types[f.refs[r]][k - 1].segment.Some? then [c + [Hop(r, k - 1)]] else []
  }

  /** Extensions of c through its first r references. */
  function RefHops(types: Types, f: Field, c: Chain, r: nat): seq<Chain>
    requires r <= |f.refs|
  {
    if r == 0 then []
    else RefHops(types, f, c, r - 1) +
         if f.refs[r - 1] in types then FieldHops(types, f, c, r - 1, |types[f.refs[r - 1]]|) else []
  }

  /** Extensions of the first a chains of a level. */
  function LevelHops(types: Types, root: Field, level: seq<Chain>, a: nat): seq<Chain>
    requires AllChains(types, root, level) && a <= |level|
  {
    if a == 0 then []
    else
      var f := Resolve(types, root, level[a - 1]).value;
      LevelHops(types, root, level, a - 1) + RefHops(types, f, level[a - 1], |f.refs|)
  }

  lemma {:induction false} FieldHopsMembers(types: Types, f: Field, c: Chain, r: nat, k: nat)
    requires r < |f.refs| && f.refs[r] in types && k <= |types[f.refs[r]]|
    ensures forall d :: d in FieldHops(types, f, c, r, k) <==>
              d != [] && Init(d) == c && Last(d).ref == r && Last(d).field < k &&
              HopTo(types, f, Last(d)) && Target(types, f, Last(d)).segment.Some?
    ensures NoDup(FieldHops(types, f, c, r, k))
  {
    if k > 0 {
      FieldHopsMembers(types, f, c, r, k - 1);
      var d := c + [Hop(r, k - 1)];
      assert Init(d) == c && Last(d) == Hop(r, k - 1);
      assert forall e: Chain :: e != [] && Init(e) == c && Last(e) == Hop(r, k - 1) ==> e == d by {
        assert forall e: Chain :: e != [] ==> e == Init(e) + [Last(e)];
      }
    }
  }

  lemma {:induction false} RefHopsMembers(types: Types, f: Field, c: Chain, r: nat)
    requires r <= |f.refs|
    ensures forall d :: d in RefHops(types, f, c, r) <==>
              d != [] && Init(d) == c && Last(d).ref < r &&
              HopTo(types, f, Last(d)) && Target(types, f, Last(d)).segment.Some?
    ensures NoDup(RefHops(types, f, c, r))
  {
    if r > 0 {
      RefHopsMembers(types, f, c, r - 1);
      if f.refs[r - 1] in types {
        FieldHopsMembers(types, f, c, r - 1, |types[f.refs[r - 1]]|);
        NoDupConcat(RefHops(types, f, c, r - 1), FieldHops(types, f, c, r - 1, |types[f.refs[r - 1]]|));
      }
    }
  }

  lemma {:induction false} LevelHopsMembers(types: Types, root: Field, level: seq<Chain>, a: nat)
    requires AllChains(types, root, level) && a <= |level|
    ensures forall d :: d in LevelHops(types, root, level, a) <==>
              d != [] && IsChain(types, root, d) && Init(d) in level[..a]
    ensures NoDup(level) ==> NoDup(LevelHops(types, root, level, a))
  {
    if a > 0 {
      LevelHopsMembers(types, root, level, a - 1);
      var c := level[a - 1];
      var f := Resolve(types, root, c).value;
      RefHopsMembers(types, f, c, |f.refs|);
      assert level[..a] == level[..a - 1] + [c];
      if NoDup(level) {
        NoDupConcat(LevelHops(types, root, level, a - 1), RefHops(types, f, c, |f.refs|));
      }
    }
  }

  /** The chains of length n, in breadth-first order. */
  ghost function Level(types: Types, root: Field, n: nat): (r: seq<Chain>)
    ensures AllChains(types, root, r)
  {
    if n == 0 then [[]]
    else
      var level := Level(types, root, n - 1);
      LevelHopsChains(types, root, level);
      LevelHops(types, root, level, |level|)
  }

  lemma LevelHopsChains(types: Types, root: Field, level: seq<Chain>)
    requires AllChains(types, root, level)
    ensures AllChains(types, root, LevelHops(types, root, level, |level|))
  {
    LevelHopsMembers(types, root, level, |level|);
    var r := LevelHops(types, root, level, |level|);
    assert forall i :: 0 <= i < |r| ==> r[i] in r;
  }

  lemma {:induction false} LevelMembers(types: Types, root: Field, n: nat)
    ensures NoDup(Level(types, root, n))
    ensures forall c :: c in Level(types, root, n) <==> IsChain(types, root, c) && |c| == n
  {
    if n > 0 {
      LevelMembers(types, root, n - 1);
      NextLevelMembers(types, root, Level(types, root, n - 1), n);
    }
  }

  lemma NextLevelMembers(types: Types, root: Field, level: seq<Chain>, n: nat)
    requires n > 0 && AllChains(types, root, level) && NoDup(level)
    requires forall c :: c in level <==> IsChain(types, root, c) && |c| == n - 1
    ensures NoDup(LevelHops(types, root, level, |level|))
    ensures forall c :: c in LevelHops(types, root, level, |level|) <==> IsChain(types, root, c) && |c| == n
  {
    LevelHopsMembers(types, root, level, |level|);
    assert level[..|level|] == level;
    forall c: Chain
      ensures c != [] && IsChain(types, root, c) && Init(c) in level <==> IsChain(types, root, c) && |c| == n
    {
      if c != [] && IsChain(types, root, c) {
        ChainInit(types, root, c);
      }
    }
  }

  // ----- When the walk ends -----

  lemma {:induction false} OwnersPrefix(types: Types, root: Field, c: Chain, n: nat)
    requires IsChain(types, root, c) && n <= |c|
    ensures IsChain(types, root, c[..n])
    ensures Owners(types, root, c[..n]) == Owners(types, root, c)[..n]
  {
    if n < |c| {
      OwnersPrefix(types, root, Init(c), n);
      assert Init(c)[..n] == c[..n];
    } else {
      assert c[..n] == c;
    }
  }

  lemma {:induction false} OwnersAreTypes(types: Types, root: Field, c: Chain)
    requires IsChain(types, root, c)
    ensures forall i :: 0 <= i < |c| ==> Owners(types, root, c)[i] in types
  {
    if c != [] {
      OwnersAreTypes(types, root, Init(c));
    }
  }

  /** On an acyclic graph no chain is longer than the number of types. */
  lemma ChainLength(types: Types, root: Field, c: Chain)
    requires Acyclic(types, root) && IsChain(types, root, c)
    ensures |c| <= |types|
  {
    var owners := Owners(types, root, c);
    OwnersAreTypes(types, root, c);
    assert NoDup(owners);
    Pigeonhole(owners, types.Keys);
  }

  lemma {:induction false} ResolveSuffix(types: Types, root: Field, a: Chain, b: Chain, s: Chain)
    requires Resolve(types, root, a) == Resolve(types, root, b)
    ensures Resolve(types, root, a + s) == Resolve(types, root, b + s)
  {
    if s == [] {
      assert a + s == a && b + s == b;
    } else {
      ResolveSuffix(types, root, a, b, Init(s));
      assert Init(a + s) == a + Init(s) && Init(b + s) == b + Init(s);
    }
  }

  lemma HopAt(types: Types, root: Field, c: Chain, n: nat)
    requires IsChain(types, root, c) && n < |c|
    ensures IsChain(types, root, c[..n])
    ensures var f := Resolve(types, root, c[..n]).value;
            && HopTo(types, f, c[n]) && Target(types, f, c[n]).segment.Some?
            && Owners(types, root, c)[n] == f.refs[c[n].ref]
            && Resolve(types, root, c[..n + 1]) == Some(Target(types, f, c[n]))
  {
    OwnersPrefix(types, root, c, n);
    OwnersPrefix(types, root, c, n + 1);
    assert Init(c[..n + 1]) == c[..n] && Last(c[..n + 1]) == c[n];
  }

  lemma ExtendChain(types: Types, root: Field, c: Chain, h: Hop)
    requires IsChain(types, root, c)
    requires var f := Resolve(types, root, c).value; HopTo(types, f, h) && Target(types, f, h).segment.Some?
    ensures var f := Resolve(types, root, c).value;
            && Resolve(types, root, c + [h]) == Some(Target(types, f, h))
            && Owners(types, root, c + [h]) == Owners(types, root, c) + [f.refs[h.ref]]
  {
    assert Init(c + [h]) == c && Last(c + [h]) == h;
  }

  /** A chain that meets a type twice can go round once more. */
  lemma Pump(types: Types, root: Field, c: Chain, i: nat, j: nat) returns (d: Chain)
    requires IsChain(types, root, c) && i < j < |c|
    requires Owners(types, root, c)[i] == Owners(types, root, c)[j]
    ensures IsChain(types, root, d) && |d| > |c|
    ensures Owners(types, root, d)[i] == Owners(types, root, d)[j]
  {
    var h := Hop(c[j].ref, c[i].field);
    var turn, rest := c[..j] + [h], c[i + 1..];
    HopAt(types, root, c, i);
    HopAt(types, root, c, j);
    ExtendChain(types, root, c[..j], h);
    d := turn + rest;
    PumpResolves(types, root, c, turn, i);
    OwnersPrefix(types, root, c, j);
    assert d[..j + 1] == turn;
    OwnersPrefix(types, root, d, j + 1);
    assert Owners(types, root, d)[i] == Owners(types, root, turn)[i];
    assert Owners(types, root, d)[j] == Owners(types, root, turn)[j];
  }

  lemma PumpResolves(types: Types, root: Field, c: Chain, turn: Chain, i: nat)
    requires IsChain(types, root, c) && i < |c|
    requires Resolve(types, root, turn) == Resolve(types, root, c[..i + 1])
    ensures IsChain(types, root, turn + c[i + 1..])
  {
    ResolveSuffix(types, root, turn, c[..i + 1], c[i + 1..]);
    assert c[..i + 1] + c[i + 1..] == c;
  }

  lemma {:induction false} PumpTo(types: Types, root: Field, c: Chain, i: nat, j: nat, n: nat) returns (d: Chain)
    requires IsChain(types, root, c) && i < j < |c|
    requires Owners(types, root, c)[i] == Owners(types, root, c)[j]
    ensures IsChain(types, root, d) && |d| >= n
    decreases n - |c|
  {
    if |c| >= n {
      d := c;
    } else {
      d := Pump(types, root, c, i, j);
      d := PumpTo(types, root, d, i, j, n);
    }
  }

  lemma AcyclicEnds(types: Types, root: Field)
    requires Acyclic(types, root)
    ensures Level(types, root, |types| + 1) == []
  {
    var level := Level(types, root, |types| + 1);
    if level != [] {
      LevelMembers(types, root, |types| + 1);
      FirstIsMember(level);
      ChainLength(types, root, level[0]);
    }
  }

  lemma CyclicGoesOn(types: Types, root: Field, n: nat)
    requires !Acyclic(types, root)
    ensures Level(types, root, n) != []
  {
    var c :| IsChain(types, root, c) && !NoDup(Owners(types, root, c));
    var i: nat, j: nat :| i < j < |c| && Owners(types, root, c)[i] == Owners(types, root, c)[j];
    var d := PumpTo(types, root, c, i, j, n);
    OwnersPrefix(types, root, d, n);
    LevelMembers(types, root, n);
    assert d[..n] in Level(types, root, n);
  }

  /** The walk runs out of fields to search next exactly when the types reachable
      from the root field do not refer back to one another. */
  lemma WalkEndsIffAcyclic(types: Types, root: Field)
    ensures (exists n: nat :: Level(types, root, n) == []) <==> Acyclic(types, root)
  {
    if Acyclic(types, root) {
      AcyclicEnds(types, root);
    } else {
      forall n: nat
        ensures Level(types, root, n) != []
      {
        CyclicGoesOn(types, root, n);
      }
    }
  }

  /** A node type whose field refers to the type itself, and a field of that type. */
  function NodeType(): TypeIdent {
    TypeIdent("v1", "Node")
  }

  function NodeField(segment: string): Field {
    Field([NodeType()], Some(segment), false, false, 0)
  }

  function NodeTypes(): Types {
    map[NodeType() := [NodeField("next")]]
  }

  /** The walk over a self-referring type never ends. */
  lemma SelfReferenceGoesOn(n: nat)
    ensures Level(NodeTypes(), NodeField("spec"), n) != []
  {
    var types, root, once, twice := NodeTypes(), NodeField("spec"), [Hop(0, 0)], [Hop(0, 0), Hop(0, 0)];
    assert Init(once) == [] && Init(twice) == once;
    assert Resolve(types, root, []) == Some(root);
    assert Resolve(types, root, once) == Some(NodeField("next"));
    assert Resolve(types, root, twice) == Some(NodeField("next"));
    assert Owner(types, root, once) == Owner(types, root, twice) == NodeType();
    assert Owners(types, root, twice)[0] == Owners(types, root, twice)[1];
    CyclicGoesOn(types, root, n);
  }

  // ----- The walk -----

  type MarkedFields = map<TypeIdent, seq<FieldInfo>>

  function Listed(markedFields: MarkedFields, t: TypeIdent): seq<FieldInfo> {
    if t in markedFields then markedFields[t] else []
  }

  /** The fields gathered so far stem from the chains `current`, the marked ones from these and `done`. */
  ghost predicate Collected(types: Types, root: Field, done: seq<Chain>, current: seq<Chain>,
                            fields: seq<FieldInfo>, markedFields: MarkedFields) {
    && AllChains(types, root, current)
    && fields == Entries(types, root, current)
    && forall t :: Listed(markedFields, t) == Entries(types, root, MarkedChains(types, root, done + current, t))
  }

  /** The field a hop from f leads to has a struct tag that does not parse. */
  predicate BadTag(types: Types, f: Field, h: Hop) {
    HopTo(types, f, h) && Target(types, f, h).segment.None?
  }

  ghost predicate BadTagBelow(types: Types, f: Field) {
    exists h :: BadTag(types, f, h)
  }

  ghost predicate BadAt(types: Types, root: Field, c: Chain) {
    IsChain(types, root, c) && BadTagBelow(types, Resolve(types, root, c).value)
  }

  method CollectField(types: Types, ident: TypeIdent, finfo: Field, parentSegments: seq<string>,
                      fields: seq<FieldInfo>, markedFields: MarkedFields, ghost root: Field,
                      ghost done: seq<Chain>, ghost current: seq<Chain>, ghost c: Chain, ghost h: Hop)
    returns (fields': seq<FieldInfo>, markedFields': MarkedFields)
    requires IsChain(types, root, c) && parentSegments == Segments(types, root, c)
    requires var f := Resolve(types, root, c).value;
             HopTo(types, f, h) && Target(types, f, h) == finfo && f.refs[h.ref] == ident
    requires finfo.segment.Some?
    requires Collected(types, root, done, current, fields, markedFields)
    ensures Collected(types, root, done, current + [c + [h]], fields', markedFields')
  {
    var f := FieldInfo(finfo, parentSegments + [PathSegment(finfo)]);
    fields', markedFields' := fields + [f], markedFields;
    if finfo.marked {
      markedFields' := markedFields[ident := Listed(markedFields, ident) + [f]];
    }
    ExtendChain(types, root, c, h);
    assert Init(c + [h]) == c && Last(c + [h]) == h;
    CollectOne(types, root, done, current, fields, markedFields, c + [h], ident, f);
  }

  /** A marked field is filed under its type. */
  function Filed(markedFields: MarkedFields, ident: TypeIdent, f: FieldInfo): MarkedFields {
    if f.field.marked then markedFields[ident := Listed(markedFields, ident) + [f]] else markedFields
  }

  lemma CollectOne(types: Types, root: Field, done: seq<Chain>, current: seq<Chain>, fields: seq<FieldInfo>,
                   markedFields: MarkedFields, d: Chain, ident: TypeIdent, f: FieldInfo)
    requires Collected(types, root, done, current, fields, markedFields)
    requires IsChain(types, root, d) && d != [] && f == Entry(types, root, d) && ident == Owner(types, root, d)
    ensures Collected(types, root, done, current + [d], fields + [f], Filed(markedFields, ident, f))
  {
    EntriesOne(types, root, current, d);
    assert done + (current + [d]) == done + current + [d];
    var marked := Filed(markedFields, ident, f);
    forall t
      ensures Listed(marked, t) == Entries(types, root, MarkedChains(types, root, done + current + [d], t))
    {
      ListedOne(types, root, done + current, markedFields, d, ident, f, t);
    }
  }

  lemma ListedOne(types: Types, root: Field, cs: seq<Chain>, markedFields: MarkedFields, d: Chain, ident: TypeIdent,
                  f: FieldInfo, t: TypeIdent)
    requires Listed(markedFields, t) == Entries(types, root, MarkedChains(types, root, cs, t))
    requires IsChain(types, root, d) && d != [] && f == Entry(types, root, d) && ident == Owner(types, root, d)
    ensures Listed(Filed(markedFields, ident, f), t) ==
            Entries(types, root, MarkedChains(types, root, cs + [d], t))
  {
    MarkedOne(types, root, cs, d, t);
    if MarkedIn(types, root, d, t) {
      EntriesOne(types, root, MarkedChains(types, root, cs, t), d);
    }
  }

  lemma EntriesOne(types: Types, root: Field, cs: seq<Chain>, d: Chain)
    requires AllChains(types, root, cs) && IsChain(types, root, d)
    ensures AllChains(types, root, cs + [d]) &&
            Entries(types, root, cs + [d]) == Entries(types, root, cs) + [Entry(types, root, d)]
  {
  }

  lemma MarkedOne(types: Types, root: Field, cs: seq<Chain>, d: Chain, t: TypeIdent)
    ensures MarkedChains(types, root, cs + [d], t) ==
            MarkedChains(types, root, cs, t) + if MarkedIn(types, root, d, t) then [d] else []
  {
    assert (cs + [d])[..|cs|] == cs;
  }

  /** All fields of the type that reference number r of the field c leads to names. */
  method WalkType(types: Types, field: FieldInfo, r: nat, fields: seq<FieldInfo>, markedFields: MarkedFields,
                  ghost root: Field, ghost done: seq<Chain>, ghost current: seq<Chain>, ghost c: Chain)
    returns (fields': seq<FieldInfo>, markedFields': MarkedFields, badTag: bool)
    requires IsChain(types, root, c) && field == Entry(types, root, c)
    requires r < |field.field.refs| && field.field.refs[r] in types
    requires Collected(types, root, done, current, fields, markedFields)
    ensures Collected(types, root, done,
                      current + FieldHops(types, field.field, c, r, |types[field.field.refs[r]]|),
                      fields', markedFields')
    ensures badTag <==> exists h: Hop :: h.ref == r && BadTag(types, field.field, h)
  {
    var ident := field.field.refs[r];
    fields', markedFields', badTag := fields, markedFields, false;
    ghost var hops: seq<Chain> := [];
    assert current + hops == current;
    for k := 0 to |types[ident]|
      invariant hops == FieldHops(types, field.field, c, r, k)
      invariant Collected(types, root, done, current + hops, fields', markedFields')
      invariant badTag <==> exists h: Hop :: h.ref == r && h.field < k && BadTag(types, field.field, h)
    {
      var finfo := types[ident][k];
      if finfo.segment.None? {
        assert BadTag(types, field.field, Hop(r, k));
        badTag := true;
      } else {
        fields', markedFields' := CollectField(types, ident, finfo, field.pathSegments, fields', markedFields',
                                               root, done, current + hops, c, Hop(r, k));
        assert current + hops + [c + [Hop(r, k)]] == current + (hops + [c + [Hop(r, k)]]);
        hops := hops + [c + [Hop(r, k)]];
      }
    }
  }

  /** ast.Inspect on one field: every known type it mentions, in order. */
  method InspectField(types: Types, field: FieldInfo, fields: seq<FieldInfo>, markedFields: MarkedFields,
                      ghost root: Field, ghost done: seq<Chain>, ghost current: seq<Chain>, ghost c: Chain)
    returns (fields': seq<FieldInfo>, markedFields': MarkedFields, badTag: bool)
    requires IsChain(types, root, c) && field == Entry(types, root, c)
    requires Collected(types, root, done, current, fields, markedFields)
    ensures Collected(types, root, done, current + RefHops(types, field.field, c, |field.field.refs|),
                      fields', markedFields')
    ensures badTag <==> BadTagBelow(types, field.field)
  {
    fields', markedFields', badTag := fields, markedFields, false;
    ghost var hops: seq<Chain> := [];
    assert current + hops == current;
    for r := 0 to |field.field.refs|
      invariant hops == RefHops(types, field.field, c, r)
      invariant Collected(types, root, done, current + hops, fields', markedFields')
      invariant badTag <==> exists h: Hop :: h.ref < r && BadTag(types, field.field, h)
    {
      var ident := field.field.refs[r];
      if ident in types {
        var bad;
        fields', markedFields', bad := WalkType(types, field, r, fields', markedFields', root, done, current + hops, c);
        ghost var more := FieldHops(types, field.field, c, r, |types[ident]|);
        assert current + hops + more == current + (hops + more);
        hops := hops + more;
        badTag := badTag || bad;
      }
    }
  }

  method WalkLevel(types: Types, nextFields: seq<FieldInfo>, markedFields: MarkedFields,
                   ghost root: Field, ghost done: seq<Chain>, ghost level: seq<Chain>)
    returns (fields: seq<FieldInfo>, markedFields': MarkedFields, badTag: bool)
    requires AllChains(types, root, level) && nextFields == Entries(types, root, level)
    requires Collected(types, root, done, [], [], markedFields)
    ensures Collected(types, root, done, LevelHops(types, root, level, |level|), fields, markedFields')
    ensures badTag <==> exists i :: 0 <= i < |level| && BadAt(types, root, level[i])
  {
    fields, markedFields', badTag := [], markedFields, false;
    ghost var hops: seq<Chain> := [];
    for a := 0 to |nextFields|
      invariant hops == LevelHops(types, root, level, a)
      invariant Collected(types, root, done, hops, fields, markedFields')
      invariant badTag <==> exists i :: 0 <= i < a && BadAt(types, root, level[i])
    {
      var bad;
      assert nextFields[a] == Entry(types, root, level[a]);
      fields, markedFields', bad := InspectField(types, nextFields[a], fields, markedFields', root, done, hops,
                                                 level[a]);
      hops := hops + RefHops(types, nextFields[a].field, level[a], |nextFields[a].field.refs|);
      assert bad <==> BadAt(types, root, level[a]);
      badTag := badTag || bad;
    }
  }

  /** The parts number 1 to n, one after the other. */
  ghost function Sum(part: nat -> seq<Chain>, n: nat): seq<Chain> {
    if n == 0 then [] else Sum(part, n - 1) + part(n)
  }

  ghost function Levels(types: Types, root: Field): nat -> seq<Chain> {
    (n: nat) => Level(types, root, n)
  }

  /** The chains of length 1 to n. */
  ghost function UpTo(types: Types, root: Field, n: nat): seq<Chain> {
    Sum(Levels(types, root), n)
  }

  ghost predicate ByLength(cs: seq<Chain>) {
    forall i, j :: 0 <= i < j < |cs| ==> |cs[i]| <= |cs[j]|
  }

  ghost predicate AtMost(cs: seq<Chain>, n: int) {
    forall c :: c in cs ==> |c| <= n
  }

  /** The chains of length n that satisfy p, each once. */
  ghost predicate ListsExactly(cs: seq<Chain>, p: Chain -> bool, n: int) {
    NoDup(cs) && forall c :: c in cs <==> p(c) && |c| == n
  }

  lemma {:induction false} SumMembers(part: nat -> seq<Chain>, p: Chain -> bool, n: nat)
    requires forall k: nat :: 0 < k <= n ==> ListsExactly(part(k), p, k)
    ensures NoDup(Sum(part, n)) && ByLength(Sum(part, n))
    ensures forall c :: c in Sum(part, n) <==> p(c) && 1 <= |c| <= n
  {
    if n > 0 {
      SumMembers(part, p, n - 1);
      assert ListsExactly(part(n), p, n);
      NoDupConcat(Sum(part, n - 1), part(n));
      ByLengthConcat(Sum(part, n - 1), part(n), n);
    }
  }

  lemma ByLengthConcat(a: seq<Chain>, b: seq<Chain>, n: nat)
    requires ByLength(a) && AtMost(a, n - 1) && forall c :: c in b ==> |c| == n
    ensures ByLength(a + b)
  {
    assert forall i :: 0 <= i < |a| ==> a[i] in a;
    assert forall i :: 0 <= i < |b| ==> b[i] in b;
  }

  lemma UpToMembers(types: Types, root: Field, n: nat)
    ensures NoDup(UpTo(types, root, n)) && ByLength(UpTo(types, root, n))
    ensures forall c :: c in UpTo(types, root, n) <==> IsChain(types, root, c) && 1 <= |c| <= n
  {
    var isChain := (c: Chain) => IsChain(types, root, c);
    forall k: nat | 0 < k <= n
      ensures ListsExactly(Levels(types, root)(k), isChain, k)
    {
      LevelMembers(types, root, k);
    }
    SumMembers(Levels(types, root), isChain, n);
  }

  ghost predicate ErrorsWithin(types: Types, root: Field, n: nat) {
    exists c :: |c| < n && BadAt(types, root, c)
  }

  lemma ErrorsStep(types: Types, root: Field, n: nat)
    ensures ErrorsWithin(types, root, n + 1) <==>
            ErrorsWithin(types, root, n) ||
            exists i :: 0 <= i < |Level(types, root, n)| && BadAt(types, root, Level(types, root, n)[i])
  {
    if c :| |c| == n && BadAt(types, root, c) {
      var i := IndexInLevel(types, root, c);
    }
    if i :| 0 <= i < |Level(types, root, n)| && BadAt(types, root, Level(types, root, n)[i]) {
      LengthInLevel(types, root, n, i);
    }
  }

  lemma IndexInLevel(types: Types, root: Field, c: Chain) returns (i: nat)
    requires IsChain(types, root, c)
    ensures i < |Level(types, root, |c|)| && Level(types, root, |c|)[i] == c
  {
    LevelMembers(types, root, |c|);
    i :| i < |Level(types, root, |c|)| && Level(types, root, |c|)[i] == c;
  }

  lemma LengthInLevel(types: Types, root: Field, n: nat, i: nat)
    requires i < |Level(types, root, n)|
    ensures |Level(types, root, n)[i]| == n
  {
    LevelMembers(types, root, n);
    assert Level(types, root, n)[i] in Level(types, root, n);
  }

  lemma ShorterThan(types: Types, root: Field, c: Chain, n: nat)
    requires Level(types, root, n) == [] && IsChain(types, root, c)
    ensures |c| < n
  {
    LevelMembers(types, root, n);
    if |c| >= n {
      OwnersPrefix(types, root, c, n);
      assert false;
    }
  }

  lemma {:induction false} PastTheEnd(types: Types, root: Field, n: nat, m: nat)
    requires Level(types, root, n) == [] && n <= m
    ensures UpTo(types, root, m) == UpTo(types, root, n)
  {
    if n < m {
      PastTheEnd(types, root, n, m - 1);
      var level := Level(types, root, m);
      if level != [] {
        LevelMembers(types, root, m);
        FirstIsMember(level);
        ShorterThan(types, root, level[0], n);
      }
    }
  }

  /** One round of the walk has moved from level n to level n + 1. */
  lemma NextLevel(types: Types, root: Field, n: nat, fields: seq<FieldInfo>, markedFields: MarkedFields)
    requires var level := Level(types, root, n);
             Collected(types, root, UpTo(types, root, n), LevelHops(types, root, level, |level|), fields, markedFields)
    ensures fields == Entries(types, root, Level(types, root, n + 1))
    ensures Collected(types, root, UpTo(types, root, n + 1), [], [], markedFields)
  {
    var done := UpTo(types, root, n + 1);
    assert done == UpTo(types, root, n) + Level(types, root, n + 1);
    assert done + [] == done;
  }

  lemma LevelBound(types: Types, root: Field, n: nat)
    requires Acyclic(types, root) && Level(types, root, n) != []
    ensures n <= |types|
  {
    LevelMembers(types, root, n);
    FirstIsMember(Level(types, root, n));
    ChainLength(types, root, Level(types, root, n)[0]);
  }

  /** Some field the root leads to has a struct tag that does not parse. */
  ghost predicate HasBadTag(types: Types, root: Field) {
    exists c :: BadAt(types, root, c)
  }

  /** Under each type, the entries of the marked chains among all chains, which are no longer than there are types. */
  ghost predicate FilesAllChains(types: Types, root: Field, markedFields: MarkedFields) {
    forall t ::
      Listed(markedFields, t) == Entries(types, root, MarkedChains(types, root, UpTo(types, root, |types|), t))
  }

  /** Where the walk is after n rounds: the current level, the chains gone through, whether a tag was bad. */
  datatype Stage = Stage(level: seq<Chain>, done: seq<Chain>, bad: bool)

  ghost predicate IsStage(types: Types, root: Field, stages: seq<Stage>, n: nat)
    requires n < |stages|
  {
    stages[n] == StageAt(types, root, n)
  }

  ghost predicate AreStages(types: Types, root: Field, stages: seq<Stage>) {
    |stages| == |types| + 2 && forall n: nat :: n < |stages| ==> IsStage(types, root, stages, n)
  }

  ghost predicate Walked(types: Types, root: Field, stage: Stage, nextFields: seq<FieldInfo>,
                         markedFields: MarkedFields,
                         priorErrors: bool, errors: bool) {
    && AllChains(types, root, stage.level) && nextFields == Entries(types, root, stage.level)
    && Collected(types, root, stage.done, [], [], markedFields)
    && (errors <==> priorErrors || stage.bad)
  }

  ghost function StageAt(types: Types, root: Field, n: nat): Stage {
    Stage(Level(types, root, n), UpTo(types, root, n), ErrorsWithin(types, root, n))
  }

  lemma WalkStart(types: Types, root: Field, priorErrors: bool) returns (stages: seq<Stage>)
    ensures AreStages(types, root, stages)
    ensures Walked(types, root, stages[0], [FieldInfo(root, [])], map[], priorErrors, priorErrors)
  {
    stages := seq(|types| + 2, n requires 0 <= n < |types| + 2 => StageAt(types, root, n));
    assert IsStage(types, root, stages, 0);
    assert Entries(types, root, [[]]) == [FieldInfo(root, [])];
  }

  lemma WalkDone(types: Types, root: Field, stages: seq<Stage>, n: nat, markedFields: MarkedFields,
                 priorErrors: bool, errors: bool)
    requires Acyclic(types, root) && AreStages(types, root, stages) && n < |stages|
    requires Walked(types, root, stages[n], [], markedFields, priorErrors, errors)
    ensures FilesAllChains(types, root, markedFields)
    ensures errors <==> priorErrors || HasBadTag(types, root)
  {
    assert IsStage(types, root, stages, n) && |Level(types, root, n)| == 0;
    AcyclicEnds(types, root);
    PastTheEnd(types, root, n, |types| + 1);
    assert UpTo(types, root, |types| + 1) == UpTo(types, root, |types|);
    assert UpTo(types, root, n) + [] == UpTo(types, root, |types|);
    if c :| BadAt(types, root, c) {
      ShorterThan(types, root, c, n);
    }
  }

  /** getMarkedChildrenOfField. `priorErrors` says whether the package already had errors
      of its own; the result is absent (an error) then, or if a struct tag did not parse. */
  method GetMarkedChildrenOfField(types: Types, rootField: Field, priorErrors: bool)
    returns (result: Option<MarkedFields>)
    requires Acyclic(types, rootField)
    ensures result.None? <==> priorErrors || HasBadTag(types, rootField)
    ensures result.Some? ==> FilesAllChains(types, rootField, result.value)
  {
    var nextFields := [FieldInfo(rootField, [])];
    var markedFields: MarkedFields := map[];
    var errors := priorErrors;
    ghost var stages := WalkStart(types, rootField, priorErrors);
    ghost var n := 0;
    while |nextFields| > 0
      invariant AreStages(types, rootField, stages) && n < |stages|
      invariant Walked(types, rootField, stages[n], nextFields, markedFields, priorErrors, errors)
      decreases |stages| - n
    {
      nextFields, markedFields, errors :=
        WalkRound(types, nextFields, markedFields, errors, priorErrors, rootField, stages, n);
      n := n + 1;
    }
    WalkDone(types, rootField, stages, n, markedFields, priorErrors, errors);
    if errors {
      return None;
    }
    return Some(markedFields);
  }

  method WalkRound(types: Types, nextFields: seq<FieldInfo>, markedFields: MarkedFields, errors: bool,
                   ghost priorErrors: bool, ghost root: Field, ghost stages: seq<Stage>, ghost n: nat)
    returns (fields: seq<FieldInfo>, markedFields': MarkedFields, errors': bool)
    requires Acyclic(types, root) && |nextFields| > 0 && AreStages(types, root, stages) && n < |stages|
    requires Walked(types, root, stages[n], nextFields, markedFields, priorErrors, errors)
    ensures n + 1 < |stages|
    ensures Walked(types, root, stages[n + 1], fields, markedFields', priorErrors, errors')
  {
    assert IsStage(types, root, stages, n);
    LevelBound(types, root, n);
    assert IsStage(types, root, stages, n + 1);
    var badTag;
    fields, markedFields', badTag := WalkLevel(types, nextFields, markedFields, root, stages[n].done, stages[n].level);
    NextLevel(types, root, n, fields, markedFields');
    ErrorsStep(types, root, n);
    errors' := errors || badTag;
  }

  /** The entries filed under type t are, one for each, the chains of references from the
      root to a marked field of t, shorter ones first. */
  lemma WalkIsEnumeration(types: Types, root: Field, t: TypeIdent)
    requires Acyclic(types, root)
    ensures var chains := MarkedChains(types, root, UpTo(types, root, |types|), t);
            && NoDup(chains) && ByLength(chains)
            && forall c :: c in chains <==> MarkedIn(types, root, c, t)
  {
    var all := UpTo(types, root, |types|);
    UpToMembers(types, root, |types|);
    MarkedChainsMembers(types, root, all, t);
    forall c | MarkedIn(types, root, c, t)
      ensures c in all
    {
      ChainLength(types, root, c);
    }
  }

  lemma {:induction false} MarkedChainsMembers(types: Types, root: Field, cs: seq<Chain>, t: TypeIdent)
    requires NoDup(cs) && ByLength(cs)
    ensures NoDup(MarkedChains(types, root, cs, t)) && ByLength(MarkedChains(types, root, cs, t))
    ensures forall c :: c in MarkedChains(types, root, cs, t) <==> c in cs && MarkedIn(types, root, c, t)
  {
    if cs != [] {
      var front, c := cs[..|cs| - 1], cs[|cs| - 1];
      MarkedChainsMembers(types, root, front, t);
      var r := MarkedChains(types, root, front, t);
      assert cs == front + [c] && c !in front;
      NoDupAppend(r, c);
      assert forall i :: 0 <= i < |r| ==> r[i] in r && r[i] in front;
      assert forall i :: 0 <= i < |front| ==> |front[i]| <= |c|;
    }
  }
}
