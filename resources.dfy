/**
 * The resource files as the service sees them through the ResX reader and
 * writer: an ordered map from key to entry, and a disk holding such files.
 */
module Resources {
  import opened Wrappers
  import opened Platform

  /**
   * A resource entry as read with data nodes: a plain string (no file
   * reference, value type `string`) or anything else, kept as its payload.
   */
  datatype Entry =
    | StringEntry(text: string, comment: string)
    | Opaque(payload: string, comment: string)

  /** No key occurs twice. */
  predicate Distinct(keys: seq<string>) {
    forall i, j :: 0 <= i < j < |keys| ==> keys[i] != keys[j]
  }

  /** An insertion-ordered dictionary keyed by resource name. */
  datatype OrderedMap<V> = OrderedMap(keys: seq<string>, vals: map<string, V>) {

    /** Keys are listed once each, and exactly the keys of `vals` are listed. */
    predicate Valid() {
      && Distinct(keys)
      && (forall k :: k in vals ==> k in keys)
      && (forall k :: k in keys ==> k in vals)
    }
  }

  function Empty<V>(): (m: OrderedMap<V>)
    ensures m.Valid() && m.keys == [] && m.vals == map[]
  {
    OrderedMap([], map[])
  }

  /**
   * `dictionary[k] = v`: an existing key keeps its place and takes the new
   * value; a missing key is appended at the end.
   */
  function Put<V>(m: OrderedMap<V>, k: string, v: V): (r: OrderedMap<V>)
    requires m.Valid()
    ensures r.Valid()
    ensures r.vals == m.vals[k := v]
    ensures r.keys == if k in m.vals then m.keys else m.keys + [k]
  {
    if k in m.vals then OrderedMap(m.keys, m.vals[k := v])
    else
      var r := OrderedMap(m.keys + [k], m.vals[k := v]);
      assert forall i :: 0 <= i < |m.keys| ==> r.keys[i] == m.keys[i];
      r
  }

  /** The content of one resource file. */
  type ResourceFile = m: OrderedMap<Entry> | m.Valid() witness OrderedMap([], map[])

  /** What sits at a path on disk: a parsable resource file, or one that does not parse. */
  datatype Stored = Resx(file: ResourceFile) | Unreadable

  /** The directories that exist and the files at each full path. */
  datatype Disk = Disk(dirs: set<string>, files: map<string, Stored>)

  predicate Readable(files: map<string, Stored>, path: string) {
    path in files && files[path].Resx?
  }

  /** Opening a ResX reader on `path` and enumerating it. */
  function ReadAll(files: map<string, Stored>, path: string): (r: Result<ResourceFile, Error>)
    ensures r.Success? <==> Readable(files, path)
    ensures r.Success? ==> files[path] == Resx(r.value)
    ensures path !in files ==> r == Failure(FileNotFound(path))
    ensures path in files && files[path].Unreadable? ==> r == Failure(FormatError(path))
  {
    if path !in files then Failure(FileNotFound(path))
    else match files[path]
      case Unreadable => Failure(FormatError(path))
      case Resx(f) => Success(f)
  }

  /**
   * A value held in the update's `Dictionary<string, object>`: the data
   * node read from the file, or a bare translated string put there.
   */
  datatype Value = DataNode(entry: Entry) | Text(text: string)

  /**
   * `ResXResourceWriter.AddResource(name, value)`: a data node is written
   * back as it was read; a bare string becomes a string entry with no comment.
   */
  function WrittenEntry(v: Value): (e: Entry)
    ensures v.DataNode? ==> e == v.entry
    ensures v.Text? ==> e.StringEntry? && e.text == v.text && e.comment == ""
  {
    match v
    case DataNode(e) => e
    case Text(s) => StringEntry(s, "")
  }

  /** The dictionary built from a reader: every entry as a data node, in file order. */
  function Nodes(f: ResourceFile): (m: OrderedMap<Value>)
    ensures m.Valid() && m.keys == f.keys
    ensures forall k :: k in f.vals ==> k in m.vals && m.vals[k] == DataNode(f.vals[k])
  {
    OrderedMap(f.keys, map k | k in f.vals :: DataNode(f.vals[k]))
  }

  /** The file a writer produces from a dictionary, entry after entry. */
  function Written(m: OrderedMap<Value>): (f: ResourceFile)
    requires m.Valid()
    ensures f.keys == m.keys
    ensures forall k :: k in m.vals ==> k in f.vals && f.vals[k] == WrittenEntry(m.vals[k])
  {
    OrderedMap(m.keys, map k | k in m.vals :: WrittenEntry(m.vals[k]))
  }

  /** Reading a file and writing every entry back changes nothing: keys, order, kinds, values, comments. */
  lemma WrittenNodesRoundTrip(f: ResourceFile)
    ensures Written(Nodes(f)) == f
  {
    var g := Written(Nodes(f));
    assert g.vals == f.vals;
  }

  /** Putting a bare string and then writing is writing and then putting its string entry. */
  lemma WrittenPutText(m: OrderedMap<Value>, k: string, s: string)
    requires m.Valid()
    ensures Written(Put(m, k, Text(s))) == Put(Written(m), k, StringEntry(s, ""))
  {
    var lhs := Written(Put(m, k, Text(s)));
    var rhs := Put(Written(m), k, StringEntry(s, ""));
    assert lhs.keys == rhs.keys by {
      assert k in Written(m).vals <==> k in m.vals;
    }
    assert lhs.vals == rhs.vals by {
      WrittenValsPut(m.vals, k, Text(s), m.vals[k := Text(s)]);
    }
  }

  /** The written entries of a dictionary with one value replaced. */
  lemma WrittenValsPut(vals: map<string, Value>, k: string, v: Value, put: map<string, Value>)
    requires put == vals[k := v]
    ensures (map k' | k' in put :: WrittenEntry(put[k']))
         == (map k' | k' in vals :: WrittenEntry(vals[k']))[k := WrittenEntry(v)]
  {
  }
}
