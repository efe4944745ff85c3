/**
 * The canonical fingerprint of a `force_stop` request.
 *
 * A `google.protobuf.Struct` arrives as some ordering of its map entries. The
 * encoding sorts them, so what it determines is the map; what that map is gets
 * its own definition here (`Meaning`), free of any order.
 */
module Fingerprint {
  import opened Common
  import opened Bytes

  datatype Entry = Entry(key: string, value: Value)

  /** A protobuf `Value`; a number is the 64-bit pattern of its double. */
  datatype Value =
    | Unset
    | Null(raw: I32)
    | Number(bits: U64)
    | Text(text: string)
    | Bool(bool)
    | Struct(entries: seq<Entry>)
    | List(values: seq<Value>)

  /** What a value is, with maps as maps. */
  datatype Tree =
    | TUnset
    | TNull(raw: I32)
    | TNumber(bits: U64)
    | TText(text: string)
    | TBool(bool)
    | TStruct(fields: map<string, Tree>)
    | TList(values: seq<Tree>)

  function Meaning(v: Value): Tree
    decreases v
  {
    match v
    case Unset => TUnset
    case Null(raw) => TNull(raw)
    case Number(bits) => TNumber(bits)
    case Text(text) => TText(text)
    case Bool(b) => TBool(b)
    case Struct(entries) => TStruct(Fields(entries))
    case List(values) => TList(Elements(values))
  }

  function Fields(es: seq<Entry>): (m: map<string, Tree>)
    decreases es
  {
    if es == [] then map[] else Fields(es[1..])[es[0].key := Meaning(es[0].value)]
  }

  function Elements(vs: seq<Value>): (ts: seq<Tree>)
    ensures |ts| == |vs|
    decreases vs
  {
    if vs == [] then [] else [Meaning(vs[0])] + Elements(vs[1..])
  }

  // ------------------------------------------------------------------ sorting

  function Size(v: Value): nat
    decreases v
  {
    match v
    case Struct(entries) => 1 + SizeOfEntries(entries)
    case List(values) => 1 + SizeOfList(values)
    case _ => 0
  }

  function SizeOfEntries(es: seq<Entry>): nat
    decreases es
  {
    if es == [] then 0 else 1 + Size(es[0].value) + SizeOfEntries(es[1..])
  }

  function SizeOfList(vs: seq<Value>): nat
    decreases vs
  {
    if vs == [] then 0 else 1 + Size(vs[0]) + SizeOfList(vs[1..])
  }

  function Insert(e: Entry, es: seq<Entry>): (r: seq<Entry>)
    ensures |r| == |es| + 1
    ensures SizeOfEntries(r) == 1 + Size(e.value) + SizeOfEntries(es)
  {
    if es == [] || Less(e.key, es[0].key) then
      assert ([e] + es)[1..] == es;
      [e] + es
    else
      var rest := Insert(e, es[1..]);
      assert ([es[0]] + rest)[1..] == rest;
      [es[0]] + rest
  }

  /** The entries in byte-lexicographic key order. */
  function Sorted(es: seq<Entry>): (r: seq<Entry>)
    ensures |r| == |es|
    ensures SizeOfEntries(r) == SizeOfEntries(es)
  {
    if es == [] then [] else Insert(es[0], Sorted(es[1..]))
  }

  // ----------------------------------------------------------------- encoding

  function Tag(n: nat): string
    requires n < 7
  {
    [n as char]
  }

  function TagOf(v: Value): (n: nat)
    ensures n < 7
  {
    match v
    case Unset => 0
    case Null(_) => 1
    case Number(_) => 2
    case Text(_) => 3
    case Bool(_) => 4
    case Struct(_) => 5
    case List(_) => 6
  }

  /** The byte strings handed to the length-prefixing sink, in order: a discriminant and what follows it. */
  function Tokens(v: Value): seq<string>
    decreases Size(v), 3
  {
    [Tag(TagOf(v))] + Payload(v)
  }

  function Payload(v: Value): seq<string>
    decreases Size(v), 2
  {
    match v
    case Unset => []
    case Null(raw) => [I32Bytes(raw)]
    case Number(bits) => [LeBytes(bits, 8)]
    case Text(text) => [text]
    case Bool(b) => [[(if b then 1 else 0) as char]]
    case Struct(entries) => StructTokens(entries)
    case List(values) => [LeBytes(|values|, 8)] + ListTokens(values)
  }

  function StructTokens(es: seq<Entry>): seq<string>
    decreases SizeOfEntries(es), 1
  {
    [LeBytes(|es|, 8)] + EntryTokens(Sorted(es))
  }

  function EntryTokens(es: seq<Entry>): seq<string>
    decreases SizeOfEntries(es), 0
  {
    if es == [] then [] else [es[0].key] + Tokens(es[0].value) + EntryTokens(es[1..])
  }

  function ListTokens(vs: seq<Value>): seq<string>
    decreases SizeOfList(vs), 0
  {
    if vs == [] then [] else Tokens(vs[0]) + ListTokens(vs[1..])
  }

  // ------------------------------------------------------------ well-formedness

  predicate DistinctKeys(es: seq<Entry>) {
    forall i, j :: 0 <= i < j < |es| ==> es[i].key != es[j].key
  }

  /** Entries come from a map, and every length fits a machine word. */
  predicate Proper(v: Value)
    decreases v
  {
    match v
    case Text(text) => |text| < U64_LIMIT
    case Struct(entries) => |entries| < U64_LIMIT && DistinctKeys(entries) && ProperEntries(entries)
    case List(values) => |values| < U64_LIMIT && ProperList(values)
    case _ => true
  }

  predicate ProperEntries(es: seq<Entry>)
    decreases es
  {
    es != [] ==> |es[0].key| < U64_LIMIT && Proper(es[0].value) && ProperEntries(es[1..])
  }

  predicate ProperList(vs: seq<Value>)
    decreases vs
  {
    vs != [] ==> Proper(vs[0]) && ProperList(vs[1..])
  }

  predicate StrictlySorted(es: seq<Entry>) {
    forall i, j :: 0 <= i < j < |es| ==> Less(es[i].key, es[j].key)
  }

  predicate HasKey(es: seq<Entry>, key: string) {
    exists i :: 0 <= i < |es| && es[i].key == key
  }

  lemma {:induction false} FieldsHaveKeys(es: seq<Entry>, key: string)
    ensures key in Fields(es) <==> HasKey(es, key)
  {
    if es != [] {
      FieldsHaveKeys(es[1..], key);
      if HasKey(es, key) && es[0].key != key {
        var i :| 0 <= i < |es| && es[i].key == key;
        assert es[1..][i - 1].key == key;
      }
    }
  }

  lemma {:induction false} InsertKeepsProper(e: Entry, es: seq<Entry>)
    requires |e.key| < U64_LIMIT && Proper(e.value) && ProperEntries(es)
    ensures ProperEntries(Insert(e, es))
  {
    var r := Insert(e, es);
    if es == [] || Less(e.key, es[0].key) {
      assert r[1..] == es;
    } else {
      InsertKeepsProper(e, es[1..]);
      assert r[1..] == Insert(e, es[1..]);
    }
  }

  lemma {:induction false} InsertKeys(e: Entry, es: seq<Entry>, key: string)
    ensures HasKey(Insert(e, es), key) <==> key == e.key || HasKey(es, key)
  {
    var r := Insert(e, es);
    FieldsHaveKeys(r, key);
    FieldsHaveKeys(es, key);
    if es == [] || Less(e.key, es[0].key) {
      assert r[1..] == es;
    } else {
      InsertKeys(e, es[1..], key);
      assert r[1..] == Insert(e, es[1..]);
      FieldsHaveKeys(es[1..], key);
      FieldsHaveKeys(r[1..], key);
    }
  }

  /** Inserting a new key adds one binding, wherever it lands. */
  lemma {:induction false} InsertMeansUpdate(e: Entry, es: seq<Entry>)
    requires !HasKey(es, e.key)
    ensures Fields(Insert(e, es)) == Fields(es)[e.key := Meaning(e.value)]
  {
    var r := Insert(e, es);
    if es == [] || Less(e.key, es[0].key) {
      assert r[1..] == es;
    } else {
      assert !HasKey(es[1..], e.key) && es[0].key != e.key by {
        FieldsHaveKeys(es, e.key);
        FieldsHaveKeys(es[1..], e.key);
      }
      InsertMeansUpdate(e, es[1..]);
      assert r[1..] == Insert(e, es[1..]);
    }
  }

  lemma {:induction false} InsertKeepsSorted(e: Entry, es: seq<Entry>)
    requires StrictlySorted(es) && !HasKey(es, e.key)
    ensures StrictlySorted(Insert(e, es))
  {
    var r := Insert(e, es);
    if es == [] {
    } else if Less(e.key, es[0].key) {
      forall j | 0 <= j < |es| ensures Less(e.key, es[j].key) {
        if j > 0 {
          LessIsTransitive(e.key, es[0].key, es[j].key);
        }
      }
    } else {
      assert !HasKey(es[1..], e.key) by {
        FieldsHaveKeys(es, e.key);
        FieldsHaveKeys(es[1..], e.key);
      }
      InsertKeepsSorted(e, es[1..]);
      var rest := Insert(e, es[1..]);
      LessIsTotal(e.key, es[0].key);
      forall j | 0 <= j < |rest| ensures Less(es[0].key, rest[j].key) {
        InsertKeys(e, es[1..], rest[j].key);
        if rest[j].key != e.key {
          var i :| 0 <= i < |es[1..]| && es[1..][i].key == rest[j].key;
          assert es[1..][i] == es[i + 1];
        } else {
          assert es[0].key != e.key;
        }
      }
    }
  }

  /** Sorting keeps the map, keeps the entries proper and puts the keys in strict order. */
  lemma {:induction false} SortingKeepsTheMap(es: seq<Entry>)
    requires DistinctKeys(es) && ProperEntries(es)
    ensures StrictlySorted(Sorted(es)) && ProperEntries(Sorted(es)) && Fields(Sorted(es)) == Fields(es)
  {
    if es != [] {
      var tail := es[1..];
      assert DistinctKeys(tail);
      SortingKeepsTheMap(tail);
      FieldsHaveKeys(tail, es[0].key);
      FieldsHaveKeys(Sorted(tail), es[0].key);
      assert !HasKey(tail, es[0].key);
      InsertKeepsProper(es[0], Sorted(tail));
      InsertMeansUpdate(es[0], Sorted(tail));
      InsertKeepsSorted(es[0], Sorted(tail));
    }
  }

  // -------------------------------------------------------- unique readability

  lemma SplitHead<T>(a: seq<T>, b: seq<T>, r: seq<T>, s: seq<T>)
    requires a != [] && b != [] && a + r == b + s
    ensures a[0] == b[0] && a[1..] + r == b[1..] + s
  {
    assert (a + r)[0] == a[0] && (b + s)[0] == b[0];
    assert (a + r)[1..] == a[1..] + r && (b + s)[1..] == b[1..] + s;
  }

  lemma TagsDiffer(a: nat, b: nat)
    requires a < 7 && b < 7 && Tag(a) == Tag(b)
    ensures a == b
  {
    assert Tag(a)[0] == Tag(b)[0];
    assert Tag(a)[0] as int == a && Tag(b)[0] as int == b;
  }

  /** Equal encodings start with the same discriminant and go on equally. */
  lemma SameTag(a: Value, b: Value, r: seq<string>, s: seq<string>)
    requires Tokens(a) + r == Tokens(b) + s
    ensures TagOf(a) == TagOf(b) && Payload(a) + r == Payload(b) + s
  {
    SplitHead(Tokens(a), Tokens(b), r, s);
    TagsDiffer(TagOf(a), TagOf(b));
    assert Tokens(a)[1..] == Payload(a) && Tokens(b)[1..] == Payload(b);
  }

  /** The values without children. */
  lemma LeafIsReadable(a: Value, b: Value, r: seq<string>, s: seq<string>)
    requires !a.Struct? && !a.List? && TagOf(a) == TagOf(b)
    requires Payload(a) + r == Payload(b) + s
    ensures a == b && r == s
  {
    if a.Unset? {
      assert Payload(a) + r == r && Payload(b) + s == s;
    } else {
      SplitHead(Payload(a), Payload(b), r, s);
      assert Payload(a)[1..] + r == r && Payload(b)[1..] + s == s;
      if a.Null? {
        I32BytesInjective(a.raw, b.raw);
      } else if a.Number? {
        Le64Injective(a.bits, b.bits);
      } else if a.Bool? {
        assert Payload(a)[0][0] == Payload(b)[0][0];
      }
    }
  }

  lemma {:induction false} StructIsReadable(a: seq<Entry>, b: seq<Entry>, r: seq<string>, s: seq<string>)
    requires |a| < U64_LIMIT && DistinctKeys(a) && ProperEntries(a)
    requires |b| < U64_LIMIT && DistinctKeys(b) && ProperEntries(b)
    requires StructTokens(a) + r == StructTokens(b) + s
    ensures Fields(a) == Fields(b) && r == s
    decreases SizeOfEntries(a), 2
  {
    SplitHead(StructTokens(a), StructTokens(b), r, s);
    assert StructTokens(a)[1..] == EntryTokens(Sorted(a)) && StructTokens(b)[1..] == EntryTokens(Sorted(b));
    Le64Injective(|a|, |b|);
    SortingKeepsTheMap(a);
    SortingKeepsTheMap(b);
    EntriesAreReadable(Sorted(a), Sorted(b), r, s);
  }

  lemma {:induction false} EntriesAreReadable(a: seq<Entry>, b: seq<Entry>, r: seq<string>, s: seq<string>)
    requires |a| == |b| && ProperEntries(a) && ProperEntries(b)
    requires EntryTokens(a) + r == EntryTokens(b) + s
    ensures Fields(a) == Fields(b) && r == s
    decreases SizeOfEntries(a), 1
  {
    if a == [] {
      assert EntryTokens(a) + r == r && EntryTokens(b) + s == s;
    } else {
      SplitHead(EntryTokens(a), EntryTokens(b), r, s);
      var restA, restB := EntryTokens(a[1..]), EntryTokens(b[1..]);
      assert EntryTokens(a)[1..] == Tokens(a[0].value) + restA;
      assert EntryTokens(b)[1..] == Tokens(b[0].value) + restB;
      ConcatAssociates(Tokens(a[0].value), restA, r);
      ConcatAssociates(Tokens(b[0].value), restB, s);
      ValueIsReadable(a[0].value, b[0].value, restA + r, restB + s);
      EntriesAreReadable(a[1..], b[1..], r, s);
    }
  }

  lemma {:induction false} ElementsAreReadable(a: seq<Value>, b: seq<Value>, r: seq<string>, s: seq<string>)
    requires |a| == |b| && ProperList(a) && ProperList(b)
    requires ListTokens(a) + r == ListTokens(b) + s
    ensures Elements(a) == Elements(b) && r == s
    decreases SizeOfList(a), 1
  {
    if a == [] {
      assert ListTokens(a) + r == r && ListTokens(b) + s == s;
    } else {
      var restA, restB := ListTokens(a[1..]), ListTokens(b[1..]);
      ConcatAssociates(Tokens(a[0]), restA, r);
      ConcatAssociates(Tokens(b[0]), restB, s);
      ValueIsReadable(a[0], b[0], restA + r, restB + s);
      ElementsAreReadable(a[1..], b[1..], r, s);
    }
  }

  /** No encoding is a prefix of another: what follows it is determined too. */
  lemma {:induction false} ValueIsReadable(a: Value, b: Value, r: seq<string>, s: seq<string>)
    requires Proper(a) && Proper(b)
    requires Tokens(a) + r == Tokens(b) + s
    ensures Meaning(a) == Meaning(b) && r == s
    decreases Size(a), 3
  {
    SameTag(a, b, r, s);
    if a.Struct? {
      StructIsReadable(a.entries, b.entries, r, s);
    } else if a.List? {
      SplitHead(Payload(a), Payload(b), r, s);
      assert Payload(a)[1..] == ListTokens(a.values) && Payload(b)[1..] == ListTokens(b.values);
      Le64Injective(|a.values|, |b.values|);
      ElementsAreReadable(a.values, b.values, r, s);
    } else {
      LeafIsReadable(a, b, r, s);
    }
  }

  // --------------------------------------------------- order does not matter

  lemma FieldsOfHead(es: seq<Entry>)
    requires StrictlySorted(es) && es != []
    ensures es[0].key !in Fields(es[1..])
    ensures forall key :: key in Fields(es[1..]) ==> Less(es[0].key, key)
  {
    forall key | key in Fields(es[1..]) ensures Less(es[0].key, key) {
      FieldsHaveKeys(es[1..], key);
      var i :| 0 <= i < |es[1..]| && es[1..][i].key == key;
      assert es[1..][i] == es[i + 1];
    }
    LessIsTotal(es[0].key, es[0].key);
  }

  lemma SomeEntrySomeField(es: seq<Entry>)
    ensures Fields(es) == map[] <==> es == []
  {
    if es != [] {
      assert es[0].key in Fields(es);
    }
  }

  lemma TailIsRemoval(es: seq<Entry>)
    requires es != [] && es[0].key !in Fields(es[1..])
    ensures Fields(es[1..]) == Fields(es) - {es[0].key}
    ensures es[0].key in Fields(es) && Fields(es)[es[0].key] == Meaning(es[0].value)
  {
  }

  /** Two strictly sorted listings of one map agree entry by entry. */
  lemma SortedListingIsUnique(a: seq<Entry>, b: seq<Entry>)
    requires StrictlySorted(a) && StrictlySorted(b) && a != [] && b != []
    requires Fields(a) == Fields(b)
    ensures a[0].key == b[0].key && Meaning(a[0].value) == Meaning(b[0].value) && Fields(a[1..]) == Fields(b[1..])
  {
    FieldsOfHead(a);
    FieldsOfHead(b);
    LessIsTotal(a[0].key, b[0].key);
    assert a[0].key in Fields(b) && b[0].key in Fields(a);
    assert a[0].key == b[0].key;
    TailIsRemoval(a);
    TailIsRemoval(b);
  }

  lemma {:induction false} SortedEntriesEncodeAlike(a: seq<Entry>, b: seq<Entry>)
    requires StrictlySorted(a) && StrictlySorted(b) && ProperEntries(a) && ProperEntries(b)
    requires Fields(a) == Fields(b)
    ensures |a| == |b| && EntryTokens(a) == EntryTokens(b)
    decreases SizeOfEntries(a), 1
  {
    SomeEntrySomeField(a);
    SomeEntrySomeField(b);
    if a != [] && b != [] {
      SortedListingIsUnique(a, b);
      EqualValuesEncodeAlike(a[0].value, b[0].value);
      SortedEntriesEncodeAlike(a[1..], b[1..]);
    }
  }

  lemma {:induction false} EqualElementsEncodeAlike(a: seq<Value>, b: seq<Value>)
    requires ProperList(a) && ProperList(b)
    requires Elements(a) == Elements(b)
    ensures ListTokens(a) == ListTokens(b)
    decreases SizeOfList(a), 1
  {
    if a != [] {
      assert Elements(a)[0] == Elements(b)[0];
      assert Elements(a)[1..] == Elements(a[1..]) && Elements(b)[1..] == Elements(b[1..]);
      EqualValuesEncodeAlike(a[0], b[0]);
      EqualElementsEncodeAlike(a[1..], b[1..]);
    }
  }

  lemma {:induction false} EqualStructsEncodeAlike(a: seq<Entry>, b: seq<Entry>)
    requires DistinctKeys(a) && ProperEntries(a) && DistinctKeys(b) && ProperEntries(b)
    requires Fields(a) == Fields(b)
    ensures StructTokens(a) == StructTokens(b)
    decreases SizeOfEntries(a), 2
  {
    SortingKeepsTheMap(a);
    SortingKeepsTheMap(b);
    SortedEntriesEncodeAlike(Sorted(a), Sorted(b));
  }

  lemma {:induction false} EqualValuesEncodeAlike(a: Value, b: Value)
    requires Proper(a) && Proper(b)
    requires Meaning(a) == Meaning(b)
    ensures Tokens(a) == Tokens(b)
    decreases Size(a), 3
  {
    if a.Struct? {
      EqualStructsEncodeAlike(a.entries, b.entries);
    } else if a.List? {
      EqualElementsEncodeAlike(a.values, b.values);
    }
  }

  // ------------------------------------------------------------- the request

  /** The semantic fields of a `force_stop` request; identity fields are keyed elsewhere. */
  datatype Request = Request(
    agentId: string,
    runId: string,
    parentRunId: Option<string>,
    traceId: string,
    action: I32,
    reasonCode: Option<string>,
    parameters: Option<seq<Entry>>)

  function OrEmpty<T>(o: Option<seq<T>>): seq<T> {
    if o.Some? then o.value else []
  }

  /** The fixed fields, in order. */
  function Head(q: Request): seq<string> {
    [q.agentId, q.runId, OrEmpty(q.parentRunId), q.traceId, I32Bytes(q.action), OrEmpty(q.reasonCode)]
  }

  /** The bytes hashed into the fingerprint. */
  function Preimage(q: Request): string {
    Framed(Head(q) + StructTokens(OrEmpty(q.parameters)), false)
  }

  predicate ProperRequest(q: Request) {
    && LengthsFit(Head(q))
    && Proper(Struct(OrEmpty(q.parameters)))
  }

  /** Equal commands: absent counts as empty, parameters are compared as maps. */
  predicate SameRequest(a: Request, b: Request) {
    && a.agentId == b.agentId
    && a.runId == b.runId
    && OrEmpty(a.parentRunId) == OrEmpty(b.parentRunId)
    && a.traceId == b.traceId
    && a.action == b.action
    && OrEmpty(a.reasonCode) == OrEmpty(b.reasonCode)
    && Fields(OrEmpty(a.parameters)) == Fields(OrEmpty(b.parameters))
  }

  lemma FitConcat(a: seq<string>, b: seq<string>)
    requires LengthsFit(a) && LengthsFit(b)
    ensures LengthsFit(a + b)
  {
  }

  lemma {:induction false} EntryTokensFit(es: seq<Entry>)
    requires ProperEntries(es)
    ensures LengthsFit(EntryTokens(es))
    decreases SizeOfEntries(es), 1
  {
    if es != [] {
      TokensFit(es[0].value);
      EntryTokensFit(es[1..]);
      FitConcat([es[0].key], Tokens(es[0].value));
      FitConcat([es[0].key] + Tokens(es[0].value), EntryTokens(es[1..]));
    }
  }

  lemma {:induction false} ListTokensFit(vs: seq<Value>)
    requires ProperList(vs)
    ensures LengthsFit(ListTokens(vs))
    decreases SizeOfList(vs), 1
  {
    if vs != [] {
      TokensFit(vs[0]);
      ListTokensFit(vs[1..]);
      FitConcat(Tokens(vs[0]), ListTokens(vs[1..]));
    }
  }

  lemma {:induction false} StructTokensFit(es: seq<Entry>)
    requires DistinctKeys(es) && ProperEntries(es)
    ensures LengthsFit(StructTokens(es))
    decreases SizeOfEntries(es), 2
  {
    SortingKeepsTheMap(es);
    EntryTokensFit(Sorted(es));
    FitConcat([LeBytes(|es|, 8)], EntryTokens(Sorted(es)));
  }

  lemma {:induction false} TokensFit(v: Value)
    requires Proper(v)
    ensures LengthsFit(Tokens(v))
    decreases Size(v), 3
  {
    if v.Struct? {
      StructTokensFit(v.entries);
      FitConcat([Tag(5)], StructTokens(v.entries));
    } else if v.List? {
      ListTokensFit(v.values);
      FitConcat([Tag(6), LeBytes(|v.values|, 8)], ListTokens(v.values));
    }
  }

  lemma HeadDetermines(a: Request, b: Request)
    requires Head(a) == Head(b)
    ensures a.agentId == b.agentId && a.runId == b.runId && OrEmpty(a.parentRunId) == OrEmpty(b.parentRunId)
    ensures a.traceId == b.traceId && a.action == b.action && OrEmpty(a.reasonCode) == OrEmpty(b.reasonCode)
  {
    assert Head(a)[0] == Head(b)[0] && Head(a)[1] == Head(b)[1] && Head(a)[2] == Head(b)[2];
    assert Head(a)[3] == Head(b)[3] && Head(a)[4] == Head(b)[4] && Head(a)[5] == Head(b)[5];
    I32BytesInjective(a.action, b.action);
  }

  /** The hashed bytes are equal exactly when the commands are. */
  lemma PreimageIsCanonical(a: Request, b: Request)
    requires ProperRequest(a) && ProperRequest(b)
    ensures Preimage(a) == Preimage(b) <==> SameRequest(a, b)
  {
    var ea, eb := OrEmpty(a.parameters), OrEmpty(b.parameters);
    if Preimage(a) == Preimage(b) {
      StructTokensFit(ea);
      StructTokensFit(eb);
      FitConcat(Head(a), StructTokens(ea));
      FitConcat(Head(b), StructTokens(eb));
      FramingIsInjective(Head(a) + StructTokens(ea), Head(b) + StructTokens(eb), false);
      SplitAt(Head(a), Head(b), StructTokens(ea), StructTokens(eb));
      HeadDetermines(a, b);
      StructIsReadable(ea, eb, [], []);
    }
    if SameRequest(a, b) {
      EqualStructsEncodeAlike(ea, eb);
    }
  }

  lemma SplitAt<T>(a: seq<T>, b: seq<T>, r: seq<T>, s: seq<T>)
    requires |a| == |b| && a + r == b + s
    ensures a == b && r == s
  {
    assert a == (a + r)[..|a|] && b == (b + s)[..|b|];
    assert r == (a + r)[|a|..] && s == (b + s)[|b|..];
  }

  /** With a hash that does not collide on these two requests, fingerprints agree exactly for equal commands. */
  lemma FingerprintsAgree(hash: string -> string, a: Request, b: Request)
    requires ProperRequest(a) && ProperRequest(b)
    requires hash(Preimage(a)) == hash(Preimage(b)) ==> Preimage(a) == Preimage(b)
    ensures hash(Preimage(a)) == hash(Preimage(b)) <==> SameRequest(a, b)
  {
    PreimageIsCanonical(a, b);
  }
}
