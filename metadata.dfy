/** get_metadata's data path after the block is read and de-obfuscated: the
    bytes become characters, the JSON library parses them (a parameter of
    the model), and the parsed entries are folded into a map of maps with
    std::map::emplace, which never overwrites an existing key. */
module Metadata {
  import opened ByteOrder

  /** One {"key": ..., "value": ...} object of a "contents" array. */
  datatype KeyValue = KeyValue(key: string, value: string)

  /** One top-level element: its "metadataSource" and its "contents". */
  datatype MetadataEntry = MetadataEntry(source: string, contents: seq<KeyValue>)

  /** std::map<std::string, std::map<std::string, std::string>>. */
  type MetadataMap = map<string, map<string, string>>

  /** std::map::emplace(k, v): inserts only when `k` is not yet a key. */
  function Emplace<K, V>(m: map<K, V>, k: K, v: V): (r: map<K, V>)
    ensures r.Keys == m.Keys + {k}
    ensures forall j :: j in m ==> r[j] == m[j]
    ensures k !in m ==> r[k] == v
  {
    if k in m then m else m[k := v]
  }

  /** The map built by emplacing `pairs` one after the other into an empty map. */
  function EmplaceAll<K, V>(pairs: seq<(K, V)>): map<K, V>
  {
    if pairs == [] then map[]
    else
      var last := pairs[|pairs| - 1];
      Emplace(EmplaceAll(pairs[..|pairs| - 1]), last.0, last.1)
  }

  /** The keys are exactly the keys that occur in `pairs`. */
  lemma {:induction false} EmplaceAllKeys<K, V>(pairs: seq<(K, V)>)
    ensures EmplaceAll(pairs).Keys == set i | 0 <= i < |pairs| :: pairs[i].0
  {
    if pairs != [] {
      var init := pairs[..|pairs| - 1];
      EmplaceAllKeys(init);
      assert forall i :: 0 <= i < |init| ==> init[i] == pairs[i];
    }
  }

  /** The value kept for a key is the one paired with its FIRST occurrence. */
  lemma {:induction false} EmplaceAllFirstWins<K, V>(pairs: seq<(K, V)>, i: nat)
    requires i < |pairs|
    requires forall j :: 0 <= j < i ==> pairs[j].0 != pairs[i].0
    ensures pairs[i].0 in EmplaceAll(pairs) && EmplaceAll(pairs)[pairs[i].0] == pairs[i].1
  {
    var init := pairs[..|pairs| - 1];
    if i < |pairs| - 1 {
      EmplaceAllFirstWins(init, i);
    } else {
      EmplaceAllKeys(init);
      assert pairs[i].0 !in EmplaceAll(init);
    }
  }

  /** The (key, value) pairs of a "contents" array, in order. */
  function ContentsPairs(contents: seq<KeyValue>): (pairs: seq<(string, string)>)
  {
    seq(|contents|, i requires 0 <= i < |contents| => (contents[i].key, contents[i].value))
  }

  /** The map get_metadata builds for one "contents" array. */
  function ContentsMap(contents: seq<KeyValue>): map<string, string>
  {
    EmplaceAll(ContentsPairs(contents))
  }

  /** The (source, contents map) pairs of the top-level elements, in order. */
  function SourcePairs(entries: seq<MetadataEntry>): seq<(string, map<string, string>)>
  {
    seq(|entries|, i requires 0 <= i < |entries| => (entries[i].source, ContentsMap(entries[i].contents)))
  }

  /** The map of maps get_metadata returns for the parsed entries. */
  function ToMetadataMap(entries: seq<MetadataEntry>): MetadataMap
  {
    EmplaceAll(SourcePairs(entries))
  }

  /** The sources of the map are the metadataSource names of the entries. */
  lemma MetadataSources(entries: seq<MetadataEntry>)
    ensures ToMetadataMap(entries).Keys == set i | 0 <= i < |entries| :: entries[i].source
  {
    var pairs := SourcePairs(entries);
    EmplaceAllKeys(pairs);
    assert forall i :: 0 <= i < |entries| ==> pairs[i].0 == entries[i].source;
    assert (set i | 0 <= i < |pairs| :: pairs[i].0) == set i | 0 <= i < |entries| :: entries[i].source;
  }

  /** A key of a source's map occurs in that entry's contents. */
  lemma ContentsKeys(contents: seq<KeyValue>)
    ensures ContentsMap(contents).Keys == set i | 0 <= i < |contents| :: contents[i].key
  {
    var pairs := ContentsPairs(contents);
    EmplaceAllKeys(pairs);
    assert forall i :: 0 <= i < |contents| ==> pairs[i].0 == contents[i].key;
    assert (set i | 0 <= i < |pairs| :: pairs[i].0) == set i | 0 <= i < |contents| :: contents[i].key;
  }

  /** A duplicated metadataSource keeps the whole contents map of its first
      entry (a later entry with the same source adds nothing to it), and a
      duplicated key within those contents keeps its first value. */
  lemma MetadataFirstOccurrenceWins(entries: seq<MetadataEntry>, i: nat, k: nat)
    requires i < |entries| && k < |entries[i].contents|
    requires forall j :: 0 <= j < i ==> entries[j].source != entries[i].source
    requires forall j :: 0 <= j < k ==> entries[i].contents[j].key != entries[i].contents[k].key
    ensures var m := ToMetadataMap(entries);
      entries[i].source in m && m[entries[i].source] == ContentsMap(entries[i].contents)
    ensures var m := ToMetadataMap(entries);
      var source, kv := entries[i].source, entries[i].contents[k];
      source in m && kv.key in m[source] && m[source][kv.key] == kv.value
  {
    EmplaceAllFirstWins(SourcePairs(entries), i);
    EmplaceAllFirstWins(ContentsPairs(entries[i].contents), k);
  }

  /** Two elements with the same metadataSource: the result holds only the
      first one's contents, and the second one's key is dropped. */
  lemma DuplicateSourceKeepsFirstContents()
    ensures var m := ToMetadataMap([MetadataEntry("S", [KeyValue("a", "1")]),
                                    MetadataEntry("S", [KeyValue("b", "2")])]);
      "S" in m && m["S"] == map["a" := "1"] && "b" !in m["S"]
  {
    var entries := [MetadataEntry("S", [KeyValue("a", "1")]), MetadataEntry("S", [KeyValue("b", "2")])];
    MetadataFirstOccurrenceWins(entries, 0, 0);
    ContentsKeys(entries[0].contents);
    assert ContentsMap(entries[0].contents).Keys == {"a"};
  }

  /** The metadata bytes as a std::string: one char per byte, whose code is
      the byte's value. */
  function Text(bytes: seq<Byte>): string
  {
    seq(|bytes|, i requires 0 <= i < |bytes| => bytes[i] as char)
  }

  /** The bytes of a string whose chars all have codes below 256. */
  function TextBytes(text: string): seq<Byte>
    requires forall i :: 0 <= i < |text| ==> text[i] as int < 256
  {
    seq(|text|, i requires 0 <= i < |text| => text[i] as int)
  }

  /** The conversion loses nothing: the bytes can be read back from the text. */
  lemma TextRoundTrip(bytes: seq<Byte>)
    ensures forall i :: 0 <= i < |Text(bytes)| ==> Text(bytes)[i] as int < 256
    ensures TextBytes(Text(bytes)) == bytes
  {
  }

  /** The loop `metadata += static_cast<char>(byte)`. */
  method BytesToText(bytes: seq<Byte>) returns (text: string)
    ensures |text| == |bytes|
    ensures forall i :: 0 <= i < |bytes| ==> text[i] as int == bytes[i]
    ensures text == Text(bytes)
  {
    text := "";
    for i := 0 to |bytes|
      invariant text == Text(bytes[..i])
    {
      text := text + [bytes[i] as char];
    }
    assert bytes[..|bytes|] == bytes;
  }

  /** The inner loop of get_metadata: emplace each (key, value) of one
      "contents" array into a fresh map. */
  method BuildContentsMap(contents: seq<KeyValue>) returns (m: map<string, string>)
    ensures m == ContentsMap(contents)
  {
    ghost var pairs := ContentsPairs(contents);
    m := map[];
    for k := 0 to |contents|
      invariant m == EmplaceAll(pairs[..k])
    {
      var kv := contents[k];
      if kv.key !in m {
        m := m[kv.key := kv.value];
      }
      assert pairs[..k + 1][..k] == pairs[..k];
    }
    assert pairs[..|contents|] == pairs;
  }

  /** The outer loop of get_metadata: for every top-level element, build its
      contents map, then emplace (metadataSource, contents) into the result. */
  method BuildMetadataMap(entries: seq<MetadataEntry>) returns (result: MetadataMap)
    ensures result == ToMetadataMap(entries)
  {
    ghost var sources := SourcePairs(entries);
    result := map[];
    for i := 0 to |entries|
      invariant result == EmplaceAll(sources[..i])
    {
      var entry := entries[i];
      var contents := BuildContentsMap(entry.contents);
      if entry.source !in result {
        result := result[entry.source := contents];
      }
      assert sources[..i + 1][..i] == sources[..i];
    }
    assert sources[..|entries|] == sources;
  }
}
