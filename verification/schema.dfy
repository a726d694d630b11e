/**
  The response schema `build_chunk_prompt_and_schema` builds for a chunk
  (translate.py lines 92-102): an object schema with one string property
  per key of the chunk, each described by the text to translate, and
  every key required.
 */
module Schema {
  import opened Wrappers
  import opened Dicts

  datatype Property = Property(kind: string, description: string)

  datatype ObjectSchema = ObjectSchema(kind: string, properties: Dict<Property>, required: seq<string>)

  /** The description asking for `text` to be put into Chinese. */
  function Describe(text: string): string
  {
    "翻译 '" + text + "' 为中文"
  }

  function PropertyFor(text: string): Property
  {
    Property("string", Describe(text))
  }

  /**
    The schema for `chunk`, built as the source's loop builds it: for each
    entry in order, the property is set and the key appended to `required`.
   */
  function ChunkSchema(chunk: Dict<string>): (s: ObjectSchema)
    ensures s.kind == "object"
    ensures s.required == Keys(chunk)
    ensures forall k :: Get(s.properties, k) ==
              if k in Keys(chunk) then Some(PropertyFor(LastValue(chunk, k))) else None
  {
    if chunk == [] then ObjectSchema("object", [], [])
    else
      var n := |chunk| - 1;
      var s := ChunkSchema(chunk[..n]);
      KeysSnoc(chunk);
      ObjectSchema("object", Put(s.properties, chunk[n].0, PropertyFor(chunk[n].1)), s.required + [chunk[n].0])
  }

  /** The properties are named in the order their keys first appear in the chunk. */
  lemma {:induction false} ChunkSchemaKeys(chunk: Dict<string>)
    ensures Keys(ChunkSchema(chunk).properties) == Dedup(Keys(chunk))
  {
    if chunk != [] {
      var n := |chunk| - 1;
      var s := ChunkSchema(chunk[..n]);
      KeysSnoc(chunk);
      ChunkSchemaKeys(chunk[..n]);
      PutKeys(s.properties, chunk[n].0, PropertyFor(chunk[n].1));
    }
  }

  /** For a chunk without repeated keys, the properties are its entries in order, each described by its text. */
  lemma {:induction false} ChunkSchemaInOrder(chunk: Dict<string>)
    requires Wf(chunk)
    ensures |ChunkSchema(chunk).properties| == |chunk|
    ensures forall i | 0 <= i < |chunk| :: ChunkSchema(chunk).properties[i] == (chunk[i].0, PropertyFor(chunk[i].1))
  {
    if chunk != [] {
      var n := |chunk| - 1;
      ChunkSchemaStep(chunk);
      ChunkSchemaInOrder(chunk[..n]);
      var prev := ChunkSchema(chunk[..n]).properties;
      var props := ChunkSchema(chunk).properties;
      forall i | 0 <= i < |chunk|
        ensures props[i] == (chunk[i].0, PropertyFor(chunk[i].1))
      {
        if i < n {
          assert props[i] == prev[i];
          assert chunk[..n][i] == chunk[i];
        } else {
          assert i == n;
        }
      }
    }
  }

  /** The last entry of a chunk without repeated keys adds a new, last property. */
  lemma ChunkSchemaStep(chunk: Dict<string>)
    requires Wf(chunk) && chunk != []
    ensures Wf(chunk[..|chunk| - 1])
    ensures ChunkSchema(chunk).properties ==
              ChunkSchema(chunk[..|chunk| - 1]).properties + [(chunk[|chunk| - 1].0, PropertyFor(chunk[|chunk| - 1].1))]
  {
    var n := |chunk| - 1;
    KeysSnoc(chunk);
    WfPrefix(chunk);
    var s := ChunkSchema(chunk[..n]);
    assert Keys(s.properties) == Keys(chunk[..n]) by {
      ChunkSchemaKeys(chunk[..n]);
      DistinctDedup(Keys(chunk[..n]));
    }
    PutNew(s.properties, chunk[n].0, PropertyFor(chunk[n].1));
  }

  /**
    A response that keeps to a schema: it names only properties the schema
    declares and every key the schema requires.
   */
  predicate Conforms(t: Dict<string>, s: ObjectSchema)
  {
    (forall k | k in Keys(t) :: Get(s.properties, k).Some?) && (forall k | k in s.required :: k in Keys(t))
  }

  /** A response keeps to the schema of a chunk exactly when it has the chunk's keys and no others. */
  lemma ConformsToChunk(t: Dict<string>, chunk: Dict<string>)
    ensures Conforms(t, ChunkSchema(chunk)) <==> (forall k :: k in Keys(t) <==> k in Keys(chunk))
  {
  }
}
