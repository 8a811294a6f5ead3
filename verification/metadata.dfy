/**
 * Document metadata: the first top-level `@document.meta` block is handed
 * to the metadata parser, and the parsed value tree is converted to JSON.
 *
 * The metadata parser is not part of this model; `ExtractMetadata` takes it
 * as a function that yields `None` where the parser reports an error.
 */
module Metadata {
  import opened Wrappers
  import opened Ast

  /** A 64-bit float: a finite value, or one of the infinities and NaNs that JSON cannot hold. */
  datatype Float = Finite(value: real) | NonFinite

  /** The parsed metadata value tree; an object holds its entries in the map's iteration order. */
  datatype NorgMeta =
    | Invalid
    | Nil
    | EmptyKey(key: string)
    | Bool(b: bool)
    | Str(s: string)
    | Num(n: Float)
    | Array(items: seq<NorgMeta>)
    | Object(entries: seq<Entry>)

  /** One key of an object and its value. */
  datatype Entry = Entry(key: string, value: NorgMeta)

  /** A JSON value. */
  datatype Json =
    | JNull
    | JBool(b: bool)
    | JString(s: string)
    | JNumber(x: real)
    | JArray(items: seq<Json>)
    | JObject(fields: map<string, Json>)

  /**
   * `meta_to_json`: the invalid, empty and key-only values become null,
   * scalars are kept, arrays and objects are converted element by element.
   */
  function MetaToJson(m: NorgMeta): (r: Json)
    decreases m, 1
  {
    match m
    case Invalid => JNull
    case Nil => JNull
    case EmptyKey(_) => JNull
    case Bool(b) => JBool(b)
    case Str(s) => JString(s)
    case Num(Finite(x)) => JNumber(x)
    case Num(NonFinite) => JNull
    case Array(items) => JArray(ArrayToJson(items))
    case Object(entries) => JObject(EntriesToJson(entries))
  }

  /** The elements converted one by one: same length, same order. */
  function ArrayToJson(items: seq<NorgMeta>): (r: seq<Json>)
    ensures |r| == |items|
    ensures forall i :: 0 <= i < |items| ==> r[i] == MetaToJson(items[i])
    decreases items, 0
  {
    if items == [] then [] else [MetaToJson(items[0])] + ArrayToJson(items[1..])
  }

  /** The keys of the entries. */
  function KeysOf(entries: seq<Entry>): set<string> {
    set i | 0 <= i < |entries| :: entries[i].key
  }

  /**
   * The entries collected into a JSON map in order, so that a later entry
   * for a key replaces an earlier one; the map has exactly the entries' keys.
   */
  function EntriesToJson(entries: seq<Entry>): (r: map<string, Json>)
    ensures r.Keys == KeysOf(entries)
    decreases entries, 0
  {
    if entries == [] then map[]
    else
      var n := |entries| - 1;
      var last := entries[n];
      var r := EntriesToJson(entries[..n])[last.key := MetaToJson(last.value)];
      assert KeysOf(entries) == KeysOf(entries[..n]) + {entries[n].key} by {
        forall k | k in KeysOf(entries) ensures k in KeysOf(entries[..n]) + {entries[n].key} {
          var i :| 0 <= i < |entries| && entries[i].key == k;
          if i < n { assert entries[..n][i] == entries[i]; }
        }
      }
      r
  }

  /** No key occurs twice, as in the map the parser builds. */
  predicate DistinctKeys(entries: seq<Entry>) {
    forall i, j :: 0 <= i < j < |entries| ==> entries[i].key != entries[j].key
  }

  /** With distinct keys, each key maps to its own value, converted. */
  lemma {:induction false} EntriesToJsonValues(entries: seq<Entry>)
    requires DistinctKeys(entries)
    ensures forall i :: 0 <= i < |entries| ==> EntriesToJson(entries)[entries[i].key] == MetaToJson(entries[i].value)
  {
    if entries != [] {
      var n := |entries| - 1;
      var front := entries[..n];
      assert DistinctKeys(front) by {
        forall i, j | 0 <= i < j < |front| ensures front[i].key != front[j].key {
          assert front[i] == entries[i] && front[j] == entries[j];
        }
      }
      EntriesToJsonValues(front);
      forall i | 0 <= i < |entries|
        ensures EntriesToJson(entries)[entries[i].key] == MetaToJson(entries[i].value)
      {
        if i < n {
          assert front[i] == entries[i];
          assert entries[i].key != entries[n].key;
        }
      }
    }
  }

  /** A later entry for a key wins over an earlier one. */
  lemma LaterEntryWins(entries: seq<Entry>, key: string, v: NorgMeta, w: NorgMeta)
    ensures EntriesToJson(entries + [Entry(key, v), Entry(key, w)])[key] == MetaToJson(w)
  {
    var all := entries + [Entry(key, v), Entry(key, w)];
    assert all[..|all| - 1] == entries + [Entry(key, v)];
  }

  /** The conversion gives null exactly for the invalid, empty, key-only and non-finite values. */
  lemma NullIff(m: NorgMeta)
    ensures MetaToJson(m) == JNull <==> (m.Invalid? || m.Nil? || m.EmptyKey? || (m.Num? && m.n.NonFinite?))
  {
  }

  /** Every other value keeps its kind: booleans, strings and finite numbers unchanged, arrays and objects by shape. */
  lemma {:induction false} KindKept(m: NorgMeta)
    ensures m.Bool? ==> MetaToJson(m) == JBool(m.b)
    ensures m.Str? ==> MetaToJson(m) == JString(m.s)
    ensures m.Num? && m.n.Finite? ==> MetaToJson(m) == JNumber(m.n.value)
    ensures MetaToJson(m).JBool? ==> m.Bool?
    ensures MetaToJson(m).JString? ==> m.Str?
    ensures MetaToJson(m).JNumber? ==> m.Num? && m.n.Finite?
    ensures m.Array? <==> MetaToJson(m).JArray?
    ensures m.Array? ==> MetaToJson(m).items == ArrayToJson(m.items)
    ensures m.Object? <==> MetaToJson(m).JObject?
    ensures m.Object? ==> MetaToJson(m).fields.Keys == KeysOf(m.entries)
  {
  }

  /** The name of the block that holds the document's metadata. */
  predicate IsMetaTag(node: NorgAst) {
    node.VerbatimRangedTag? && node.name == ["document", "meta"]
  }

  /** The content of the first top-level metadata block, if there is one. */
  function FindMetaBlock(ast: seq<NorgAst>): (r: Option<string>)
    ensures r.None? <==> forall k :: 0 <= k < |ast| ==> !IsMetaTag(ast[k])
  {
    if ast == [] then None
    else if IsMetaTag(ast[0]) then Some(ast[0].tagContent)
    else
      var r := FindMetaBlock(ast[1..]);
      assert forall k :: 1 <= k < |ast| ==> ast[k] == ast[1..][k - 1];
      r
  }

  /** The first metadata block is the one chosen, whatever follows it. */
  lemma {:induction false} FirstMetaBlockWins(ast: seq<NorgAst>, k: nat)
    requires k < |ast| && IsMetaTag(ast[k])
    requires forall j :: 0 <= j < k ==> !IsMetaTag(ast[j])
    ensures FindMetaBlock(ast) == Some(ast[k].tagContent)
  {
    if k > 0 {
      assert ast[1..][k - 1] == ast[k];
      FirstMetaBlockWins(ast[1..], k - 1);
    }
  }

  /** `extract_metadata`: the converted metadata, or null when there is no block or it does not parse. */
  function ExtractMetadata(ast: seq<NorgAst>, parse: string -> Option<NorgMeta>): (r: Json)
    ensures (forall k :: 0 <= k < |ast| ==> !IsMetaTag(ast[k])) ==> r == JNull
  {
    match FindMetaBlock(ast)
    case None => JNull
    case Some(content) =>
      match parse(content)
      case None => JNull
      case Some(meta) => MetaToJson(meta)
  }

  /** The first block decides: its parse failure gives null, its parsed value is converted. */
  lemma ExtractFromFirstBlock(ast: seq<NorgAst>, k: nat, parse: string -> Option<NorgMeta>)
    requires k < |ast| && IsMetaTag(ast[k])
    requires forall j :: 0 <= j < k ==> !IsMetaTag(ast[j])
    ensures parse(ast[k].tagContent).None? ==> ExtractMetadata(ast, parse) == JNull
    ensures parse(ast[k].tagContent).Some? ==>
      ExtractMetadata(ast, parse) == MetaToJson(parse(ast[k].tagContent).value)
  {
    FirstMetaBlockWins(ast, k);
  }

  /** Blocks named `code` or `document.other` are not metadata and are passed over. */
  lemma OtherTagsPassedOver(p1: seq<string>, c1: string, p2: seq<string>, c2: string, rest: seq<NorgAst>,
                            parse: string -> Option<NorgMeta>)
    ensures ExtractMetadata([VerbatimRangedTag(["code"], p1, c1), VerbatimRangedTag(["document", "other"], p2, c2)] + rest, parse)
         == ExtractMetadata(rest, parse)
  {
    var ast := [VerbatimRangedTag(["code"], p1, c1), VerbatimRangedTag(["document", "other"], p2, c2)] + rest;
    assert ["code"] != ["document", "meta"];
    assert ["document", "other"][1] != ["document", "meta"][1];
    assert !IsMetaTag(ast[0]) && !IsMetaTag(ast[1..][0]);
    assert ast[1..][1..] == rest;
    assert FindMetaBlock(ast) == FindMetaBlock(ast[1..]) == FindMetaBlock(rest);
  }

  /** Only top-level nodes are searched: a metadata block inside a heading is not found. */
  lemma NestedBlockIgnored(level: nat, title: seq<ParagraphSegment>, params: seq<string>, content: string,
                           parse: string -> Option<NorgMeta>)
    ensures ExtractMetadata([Heading(level, title, [VerbatimRangedTag(["document", "meta"], params, content)])], parse) == JNull
  {
  }
}
