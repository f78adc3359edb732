/**
 * The HadroDB document-store connector: the rewrite of a dotted collection
 * name into the path the store is opened with, and the document count it
 * reports.
 */
module HadroConnector {

  /** Replace every '.' by '/', leaving all other characters in place (Python's `str.replace`). */
  function ReplaceDots(s: string): (r: string)
    ensures |r| == |s|
    ensures forall i :: 0 <= i < |s| ==> r[i] == if s[i] == '.' then '/' else s[i]
  {
    if s == [] then [] else [if s[0] == '.' then '/' else s[0]] + ReplaceDots(s[1..])
  }

  /** Whether `collection` starts with `prefix` followed by a dot. */
  predicate HasDottedPrefix(collection: string, prefix: string)
  {
    prefix + "." <= collection
  }

  /**
   * The name `read_documents` opens: with `removePrefix` set and the
   * collection starting with `prefix + "."`, those characters are dropped;
   * then every '.' becomes '/'.
   */
  function QueriedCollection(collection: string, prefix: string, removePrefix: bool): (r: string)
    ensures '.' !in r
    ensures removePrefix && HasDottedPrefix(collection, prefix) ==>
      r == ReplaceDots(collection[|prefix| + 1..]) && |r| == |collection| - (|prefix| + 1)
    ensures !(removePrefix && HasDottedPrefix(collection, prefix)) ==>
      r == ReplaceDots(collection) && |r| == |collection|
  {
    var queried := if removePrefix && HasDottedPrefix(collection, prefix)
                   then collection[|prefix| + 1..] else collection;
    ReplaceDots(queried)
  }

  /** Without `removePrefix` the prefix plays no part: the name is the collection with dots replaced. */
  lemma WithoutRemovePrefix(collection: string, prefix: string, other: string)
    ensures QueriedCollection(collection, prefix, false) == QueriedCollection(collection, other, false)
    ensures forall i :: 0 <= i < |collection| ==>
      QueriedCollection(collection, prefix, false)[i] == if collection[i] == '.' then '/' else collection[i]
  {
  }

  /**
   * When the prefix is stripped, the rewritten name is the rewritten
   * remainder: character `i` of the result comes from character
   * `i + |prefix| + 1` of the collection.
   */
  lemma StrippedPrefixAlignment(collection: string, prefix: string, i: nat)
    requires HasDottedPrefix(collection, prefix)
    requires i < |collection| - (|prefix| + 1)
    ensures var c := collection[i + |prefix| + 1];
      QueriedCollection(collection, prefix, true)[i] == if c == '.' then '/' else c
  {
    var rest := collection[|prefix| + 1..];
    assert rest[i] == collection[i + |prefix| + 1];
    assert QueriedCollection(collection, prefix, true) == ReplaceDots(rest);
  }

  /** `get_document_count`: the store cannot count documents, so the connector always reports -1. */
  function GetDocumentCount(collection: string): (r: int)
    ensures r == -1
  {
    -1
  }
}
