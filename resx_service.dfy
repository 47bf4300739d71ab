/**
 * The resource service: scanning a directory tree of ResX files for entries
 * flagged with a tag, and writing translated text back into those files.
 *
 * The disk is a parameter (and, for an update, a result); the files a
 * directory walk finds are given as `listing`, their full paths in
 * enumeration order.
 */
module ResxServices {
  import opened Wrappers
  import opened Platform
  import opened Resources
  import opened Models

  /** The marker a scan looks for when the caller gives none. */
  const DefaultTag: string := "[translate me]"

  /** The service with the root directory and the file mask it was created with. */
  datatype ResxService = ResxService(path: string, fileMask: string) {

    /**
     * Scans every listed file and returns one record per string entry
     * whose text contains the tag, file after file, entry after entry.
     */
    method GetResources(disk: Disk, listing: seq<string>, translationTag: Option<string>)
      returns (r: Result<seq<Translation>, Error>)
      ensures path !in disk.dirs ==> r == Failure(DirectoryNotFound(path))
      ensures r == Scan(path, disk, listing, translationTag)
    {
      if path !in disk.dirs {
        return Failure(DirectoryNotFound(path));
      }
      var tag := EffectiveTag(translationTag);
      var translations: seq<Translation> := [];
      for i := 0 to |listing|
        invariant ScanListing(path, disk.files, listing[..i], tag) == Success(translations)
      {
        assert listing[..i + 1][..i] == listing[..i];
        var file := listing[i];
        var relativeFileName := RelativeName(path, file);
        if relativeFileName.Failure? {
          ScanListingFailStable(path, disk.files, listing, i + 1, tag);
          return Failure(relativeFileName.error);
        }
        var resx := ReadAll(disk.files, file);
        if resx.Failure? {
          ScanListingFailStable(path, disk.files, listing, i + 1, tag);
          return Failure(resx.error);
        }
        translations := translations + SelectTagged(relativeFileName.value, resx.value, tag);
      }
      assert listing[..|listing|] == listing;
      r := Success(translations);
    }

    /**
     * Writes every record with a translated text into its file, one file
     * (group of records) at a time; stops at the first file it cannot read,
     * keeping the files it has already rewritten.
     */
    method UpdateResources(disk: Disk, translations: seq<Translation>)
      returns (disk': Disk, error: Option<Error>)
      ensures disk'.dirs == disk.dirs
      ensures UpdateOutcome(disk'.files, error) == Update(path, disk.files, translations)
    {
      var groups := GroupByFile(Pending(translations));
      var files := disk.files;
      error := None;
      var i := 0;
      while i < |groups|
        invariant 0 <= i <= |groups|
        invariant ApplyGroups(path, disk.files, groups[..i]) == UpdateOutcome(files, None)
      {
        var group := groups[i];
        var fileName := Combine(path, group.fileName);
        var resx := ReadAll(files, fileName);
        ApplyGroupsNext(path, disk.files, groups, i, files);
        if resx.Failure? {
          error := Some(resx.error);
          break;
        }
        // Read all existing resources, overwrite them with the translated values, save them all.
        var allEntries := Nodes(resx.value);
        WrittenNodesRoundTrip(resx.value);
        allEntries := Overwrite(allEntries, group.records);
        var written := WriteAll(allEntries);
        assert written == ApplyGroup(resx.value, group.records);
        files := files[fileName := Resx(written)];
        i := i + 1;
      }
      if error.None? {
        assert groups[..i] == groups;
      }
      disk' := Disk(disk.dirs, files);
    }
  }

  /** The update loop over one file's dictionary: each record's key is set to its translated text. */
  method Overwrite(entries: OrderedMap<Value>, records: seq<Translation>) returns (allEntries: OrderedMap<Value>)
    requires entries.Valid()
    ensures allEntries.Valid()
    ensures Written(allEntries) == ApplyGroup(Written(entries), records)
  {
    allEntries := entries;
    for j := 0 to |records|
      invariant allEntries.Valid()
      invariant Written(allEntries) == ApplyGroup(Written(entries), records[..j])
    {
      assert records[..j + 1][..j] == records[..j];
      var translation := records[j];
      WrittenPutText(allEntries, translation.id, translation.translatedText);
      allEntries := Put(allEntries, translation.id, Text(translation.translatedText));
    }
    assert records[..|records|] == records;
  }

  /** The save loop: a writer given every entry of the dictionary, in order. */
  method WriteAll(allEntries: OrderedMap<Value>) returns (written: ResourceFile)
    requires allEntries.Valid()
    ensures written == Written(allEntries)
  {
    var output: OrderedMap<Entry> := Empty();
    for j := 0 to |allEntries.keys|
      invariant WrittenUpTo(allEntries, output, j)
    {
      var key := allEntries.keys[j];
      WrittenUpToNext(allEntries, output, j);
      output := Put(output, key, WrittenEntry(allEntries.vals[key]));
    }
    WrittenUpToAll(allEntries, output);
    written := output;
  }

  /** The writer has been given the first `j` entries of the dictionary. */
  predicate WrittenUpTo(allEntries: OrderedMap<Value>, output: OrderedMap<Entry>, j: int) {
    && allEntries.Valid() && output.Valid()
    && 0 <= j <= |allEntries.keys| && output.keys == allEntries.keys[..j]
    && forall k :: k in output.vals ==>
         k in allEntries.vals && output.vals[k] == WrittenEntry(allEntries.vals[k])
  }

  /** Giving the writer the next entry. */
  lemma WrittenUpToNext(allEntries: OrderedMap<Value>, output: OrderedMap<Entry>, j: int)
    requires WrittenUpTo(allEntries, output, j) && j < |allEntries.keys|
    ensures allEntries.keys[j] in allEntries.vals
    ensures WrittenUpTo(allEntries,
      Put(output, allEntries.keys[j], WrittenEntry(allEntries.vals[allEntries.keys[j]])), j + 1)
  {
    var key := allEntries.keys[j];
    assert key !in output.vals;
    assert allEntries.keys[..j + 1] == allEntries.keys[..j] + [key];
  }

  /** Once every entry is given, the writer's file is the written dictionary. */
  lemma WrittenUpToAll(allEntries: OrderedMap<Value>, output: OrderedMap<Entry>)
    requires WrittenUpTo(allEntries, output, |allEntries.keys|)
    ensures output == Written(allEntries)
  {
    assert allEntries.keys[..|allEntries.keys|] == allEntries.keys;
    assert output.vals == Written(allEntries).vals;
  }

  /** A service as its constructor admits it: both arguments non-empty. */
  type ValidService = s: ResxService | s.path != [] && s.fileMask != [] witness ResxService("r", "m")

  /** The constructor's argument checks: the path first, then the file mask. */
  function NewResxService(path: string, fileMask: string): (r: Result<ValidService, Error>)
    ensures r.Success? <==> path != [] && fileMask != []
    ensures r.Success? ==> r.value.path == path && r.value.fileMask == fileMask
    ensures path == [] ==> r == Failure(ArgumentError("path"))
    ensures path != [] && fileMask == [] ==> r == Failure(ArgumentError("fileMask"))
  {
    if path == [] then Failure(ArgumentError("path"))
    else if fileMask == [] then Failure(ArgumentError("fileMask"))
    else Success(ResxService(path, fileMask))
  }

  /** The tag a scan uses: the caller's, unless it is absent or empty. */
  function EffectiveTag(translationTag: Option<string>): (tag: string)
    ensures tag != []
    ensures translationTag == None || translationTag == Some([]) ==> tag == DefaultTag
    ensures translationTag.Some? && translationTag.value != [] ==> tag == translationTag.value
  {
    if translationTag.None? || translationTag.value == [] then DefaultTag else translationTag.value
  }

  // ---------------------------------------------------------------------------
  // Relative file names

  /** `Path.GetFullPath(file).Substring(root.Length + 1)`, as written. */
  function RelativeNameAsWritten(root: string, full: string): (r: Result<string, Error>)
    ensures r.Failure? <==> |full| <= |root|
    ensures r.Success? ==> r.value == full[|root| + 1..]
  {
    if |full| <= |root| then Failure(ArgumentOutOfRange) else Success(full[|root| + 1..])
  }

  /**
   * The name of `full` relative to `root`: the root is stripped, and then
   * the separator after it, if there is one (a root such as a drive root
   * already ends with its separator).
   */
  function RelativeName(root: string, full: string): (r: Result<string, Error>)
    ensures r.Failure? <==> |full| <= |root|
    ensures r.Success? && IsSeparator(full[|root|]) ==> full == full[..|root| + 1] + r.value
    ensures r.Success? && !IsSeparator(full[|root|]) ==> full == full[..|root|] + r.value
  {
    if |full| <= |root| then Failure(ArgumentOutOfRange)
    else
      var rest := full[|root|..];
      if IsSeparator(rest[0]) then Success(rest[1..]) else Success(rest)
  }

  /**
   * The relative name a scan records is the one an update resolves back to
   * the same file: for a file directly below the root (with or without a
   * separator at the end of the root), `Path.Combine(root, name)` is the file.
   */
  lemma RelativeNameRoundTrip(root: string, name: string, full: string)
    requires root != [] && name != [] && !IsRooted(name)
    requires
      || (!IsSeparator(root[|root| - 1]) && root[|root| - 1] != ':' &&
          full == root + [DirectorySeparator] + name)
      || (IsSeparator(root[|root| - 1]) && full == root + name)
    ensures RelativeName(root, full) == Success(name)
    ensures Combine(root, name) == full
  {
    if IsSeparator(root[|root| - 1]) {
      assert full[|root|..] == name;
    } else {
      assert full[|root|..] == [DirectorySeparator] + name;
      assert full[|root|..][1..] == name;
    }
  }

  /** Where a separator follows the root, the code as written computes the same name. */
  lemma RelativeNameAgrees(root: string, full: string)
    requires |full| > |root| && IsSeparator(full[|root|])
    ensures RelativeNameAsWritten(root, full) == RelativeName(root, full)
  {
    assert full[|root|..][1..] == full[|root| + 1..];
  }

  /**
   * As written, a root that ends in a separator (such as `C:\`) loses the
   * first character of every file name, and the update cannot find the file
   * again from the name it gets.
   */
  lemma RelativeNameAsWrittenDropsFirstChar(root: string, name: string)
    requires root != [] && IsSeparator(root[|root| - 1]) && name != []
    ensures RelativeNameAsWritten(root, root + name) == Success(name[1..])
    ensures Combine(root, name[1..]) != root + name
  {
    assert (root + name)[|root| + 1..] == name[1..];
    assert |Combine(root, name[1..])| < |root + name|;
  }

  lemma DriveRootExample()
    ensures RelativeNameAsWritten("C:\\", "C:\\Strings.resx") == Success("trings.resx")
    ensures RelativeName("C:\\", "C:\\Strings.resx") == Success("Strings.resx")
    ensures Combine("C:\\", "trings.resx") != "C:\\Strings.resx"
  {
    assert "C:\\" + "Strings.resx" == "C:\\Strings.resx";
    assert "Strings.resx"[1..] == "trings.resx";
    RelativeNameAsWrittenDropsFirstChar("C:\\", "Strings.resx");
    RelativeNameRoundTrip("C:\\", "Strings.resx", "C:\\Strings.resx");
  }

  // ---------------------------------------------------------------------------
  // Selecting the tagged entries of one file

  /** The entry is a plain string whose text contains the tag, ignoring case. */
  predicate IsTagged(e: Entry, tag: string)
    ensures IsTagged(e, tag) <==> e.StringEntry? && ContainsIgnoringCase(e.text, tag)
  {
    e.StringEntry? && IndexOfIgnoreCase(e.text, tag) >= 0
  }

  /** The record a tagged entry yields; its translated text is not set. */
  function RecordOf(rel: string, key: string, e: Entry): (t: Translation)
    requires e.StringEntry?
    ensures t.id == key && t.fileName == rel && t.translatedText == []
    ensures t.originalText == e.text && t.comment == e.comment
  {
    Translation(key, rel, e.text, [], e.comment)
  }

  /** The records of the entries named by `keys`, in that order. */
  function SelectKeys(rel: string, keys: seq<string>, vals: map<string, Entry>, tag: string)
    : (r: seq<Translation>)
    requires forall k :: k in keys ==> k in vals
    ensures |r| <= |keys|
    ensures forall i :: 0 <= i < |r| ==> r[i].fileName == rel && r[i].translatedText == []
    decreases |keys|
  {
    if keys == [] then []
    else
      var key := keys[|keys| - 1];
      SelectKeys(rel, keys[..|keys| - 1], vals, tag) +
      (if IsTagged(vals[key], tag) then [RecordOf(rel, key, vals[key])] else [])
  }

  /** The records one file contributes to a scan. */
  function SelectTagged(rel: string, f: ResourceFile, tag: string): (r: seq<Translation>)
    ensures |r| <= |f.keys|
    ensures forall t :: t in r ==> t.fileName == rel && t.translatedText == []
  {
    SelectKeys(rel, f.keys, f.vals, tag)
  }

  /** Records follow the entry order: selecting from two runs of keys is selecting from each. */
  lemma {:induction false} SelectKeysAppend(
    rel: string, a: seq<string>, b: seq<string>, vals: map<string, Entry>, tag: string)
    requires forall k :: k in a ==> k in vals
    requires forall k :: k in b ==> k in vals
    ensures forall k :: k in a + b ==> k in vals
    ensures SelectKeys(rel, a + b, vals, tag) ==
            SelectKeys(rel, a, vals, tag) + SelectKeys(rel, b, vals, tag)
    decreases |b|
  {
    if b != [] {
      var b' := b[..|b| - 1];
      assert (a + b)[..|a + b| - 1] == a + b';
      SelectKeysAppend(rel, a, b', vals, tag);
    } else {
      assert a + b == a;
    }
  }

  /**
   * A record comes out for a key exactly when its entry is a plain string
   * containing the tag (ignoring case), and it carries the key, the relative
   * name, the text and the comment of that entry.
   */
  lemma {:induction false} SelectKeysMembers(
    rel: string, keys: seq<string>, vals: map<string, Entry>, tag: string, t: Translation)
    requires forall k :: k in keys ==> k in vals
    ensures t in SelectKeys(rel, keys, vals, tag) <==>
      exists k :: k in keys && vals[k].StringEntry? && ContainsIgnoringCase(vals[k].text, tag) &&
        t == Translation(k, rel, vals[k].text, [], vals[k].comment)
    decreases |keys|
  {
    if keys != [] {
      var init := keys[..|keys| - 1];
      var key := keys[|keys| - 1];
      assert keys == init + [key];
      SelectKeysMembers(rel, init, vals, tag, t);
      assert forall k :: k in keys <==> k in init || k == key;
    }
  }

  /** The same, for one file: opaque entries never give a record. */
  lemma SelectTaggedMembers(rel: string, f: ResourceFile, tag: string, t: Translation)
    ensures t in SelectTagged(rel, f, tag) <==>
      exists k :: k in f.keys && f.vals[k].StringEntry? && ContainsIgnoringCase(f.vals[k].text, tag) &&
        t == Translation(k, rel, f.vals[k].text, [], f.vals[k].comment)
  {
    SelectKeysMembers(rel, f.keys, f.vals, tag, t);
  }

  /** The keys whose entries are tagged, in the order given. */
  function TaggedKeys(keys: seq<string>, vals: map<string, Entry>, tag: string): (r: seq<string>)
    requires forall k :: k in keys ==> k in vals
    ensures forall k :: k in r ==> k in keys && IsTagged(vals[k], tag)
    decreases |keys|
  {
    if keys == [] then []
    else
      var key := keys[|keys| - 1];
      assert forall k :: k in keys[..|keys| - 1] ==> k in keys;
      TaggedKeys(keys[..|keys| - 1], vals, tag) + (if IsTagged(vals[key], tag) then [key] else [])
  }

  /** The keys of a run of records, in order. */
  function RecordIds(ts: seq<Translation>): (ids: seq<string>)
    ensures |ids| == |ts| && forall i :: 0 <= i < |ts| ==> ids[i] == ts[i].id
  {
    seq(|ts|, i requires 0 <= i < |ts| => ts[i].id)
  }

  /** The records' keys are the tagged keys, one record each, in key order. */
  lemma {:induction false} SelectKeysIds(rel: string, keys: seq<string>, vals: map<string, Entry>, tag: string)
    requires forall k :: k in keys ==> k in vals
    ensures RecordIds(SelectKeys(rel, keys, vals, tag)) == TaggedKeys(keys, vals, tag)
    decreases |keys|
  {
    if keys != [] {
      var init := keys[..|keys| - 1];
      assert forall k :: k in init ==> k in keys;
      SelectKeysIds(rel, init, vals, tag);
    }
  }

  /** Filtering a list of distinct keys keeps them distinct. */
  lemma {:induction false} TaggedKeysDistinct(keys: seq<string>, vals: map<string, Entry>, tag: string)
    requires forall k :: k in keys ==> k in vals
    requires Distinct(keys)
    ensures Distinct(TaggedKeys(keys, vals, tag))
    decreases |keys|
  {
    if keys != [] {
      var init := keys[..|keys| - 1];
      var key := keys[|keys| - 1];
      assert forall k :: k in init ==> k in keys;
      TaggedKeysDistinct(init, vals, tag);
      var prev := TaggedKeys(init, vals, tag);
      assert key !in init;
      var r := TaggedKeys(keys, vals, tag);
      assert r == prev + (if IsTagged(vals[key], tag) then [key] else []);
      forall i, j | 0 <= i < j < |r|
        ensures r[i] != r[j]
      {
        if j < |prev| {
          assert r[i] == prev[i] && r[j] == prev[j];
        } else {
          assert r[i] == prev[i] && prev[i] in init;
        }
      }
    }
  }

  /**
   * A file yields exactly one record per tagged entry: the records' keys are
   * the file's tagged keys in file order, so no key repeats.
   */
  lemma SelectTaggedOnePerEntry(rel: string, f: ResourceFile, tag: string)
    ensures RecordIds(SelectTagged(rel, f, tag)) == TaggedKeys(f.keys, f.vals, tag)
    ensures Distinct(RecordIds(SelectTagged(rel, f, tag)))
  {
    SelectKeysIds(rel, f.keys, f.vals, tag);
    TaggedKeysDistinct(f.keys, f.vals, tag);
  }

  // ---------------------------------------------------------------------------
  // Scanning

  /** One listed file: its relative name, then its entries, then its records. */
  function ScanFile(root: string, files: map<string, Stored>, full: string, tag: string)
    : (r: Result<seq<Translation>, Error>)
    ensures r.Success? <==> |full| > |root| && Readable(files, full)
    ensures |full| <= |root| ==> r == Failure(ArgumentOutOfRange)
    ensures r.Success? ==>
      r.value == SelectTagged(RelativeName(root, full).value, files[full].file, tag)
  {
    match RelativeName(root, full)
    case Failure(e) => Failure(e)
    case Success(rel) =>
      match ReadAll(files, full)
      case Failure(e) => Failure(e)
      case Success(f) => Success(SelectTagged(rel, f, tag))
  }

  /** Two scan results one after the other: the first error, or both runs of records. */
  function Join(x: Result<seq<Translation>, Error>, y: Result<seq<Translation>, Error>)
    : (r: Result<seq<Translation>, Error>)
    ensures r.Success? <==> x.Success? && y.Success?
    ensures x.Failure? ==> r == x
    ensures x.Success? && y.Failure? ==> r == y
    ensures r.Success? ==> r.value == x.value + y.value
  {
    match x
    case Failure(e) => Failure(e)
    case Success(a) =>
      match y
      case Failure(e) => Failure(e)
      case Success(b) => Success(a + b)
  }

  /** The listed files in order; the first failing file ends the scan with its error. */
  function ScanListing(root: string, files: map<string, Stored>, listing: seq<string>, tag: string)
    : (r: Result<seq<Translation>, Error>)
    ensures r.Success? ==> forall t :: t in r.value ==> t.translatedText == []
    decreases |listing|
  {
    if listing == [] then Success([])
    else Join(ScanListing(root, files, listing[..|listing| - 1], tag),
              ScanFile(root, files, listing[|listing| - 1], tag))
  }

  /** A scan of a root directory with the files a walk of it found. */
  function Scan(root: string, disk: Disk, listing: seq<string>, translationTag: Option<string>)
    : (r: Result<seq<Translation>, Error>)
    ensures root !in disk.dirs ==> r == Failure(DirectoryNotFound(root))
    ensures r.Success? ==> forall t :: t in r.value ==> t.translatedText == []
  {
    if root !in disk.dirs then Failure(DirectoryNotFound(root))
    else ScanListing(root, disk.files, listing, EffectiveTag(translationTag))
  }

  /**
   * Scanning two runs of files is scanning the first and then the second,
   * their records concatenated in that order; an error in the first run wins.
   */
  lemma {:induction false} ScanListingAppend(
    root: string, files: map<string, Stored>, a: seq<string>, b: seq<string>, tag: string)
    ensures ScanListing(root, files, a + b, tag) ==
            Join(ScanListing(root, files, a, tag), ScanListing(root, files, b, tag))
    decreases |b|
  {
    if b == [] {
      assert a + b == a;
      assert Join(ScanListing(root, files, a, tag), Success([])) == ScanListing(root, files, a, tag) by {
        var x := ScanListing(root, files, a, tag);
        if x.Success? {
          assert x.value + [] == x.value;
        }
      }
    } else {
      var b' := b[..|b| - 1];
      assert (a + b)[..|a + b| - 1] == a + b';
      assert (a + b)[|a + b| - 1] == b[|b| - 1];
      ScanListingAppend(root, files, a, b', tag);
      JoinAssociative(ScanListing(root, files, a, tag), ScanListing(root, files, b', tag),
                      ScanFile(root, files, b[|b| - 1], tag));
    }
  }

  lemma JoinAssociative(
    x: Result<seq<Translation>, Error>, y: Result<seq<Translation>, Error>, z: Result<seq<Translation>, Error>)
    ensures Join(Join(x, y), z) == Join(x, Join(y, z))
  {
    if x.Success? && y.Success? && z.Success? {
      assert x.value + y.value + z.value == x.value + (y.value + z.value);
    }
  }

  /** Once a prefix of the listing fails, the whole scan fails the same way. */
  lemma ScanListingFailStable(
    root: string, files: map<string, Stored>, listing: seq<string>, i: nat, tag: string)
    requires i <= |listing|
    requires ScanListing(root, files, listing[..i], tag).Failure?
    ensures ScanListing(root, files, listing, tag) == ScanListing(root, files, listing[..i], tag)
  {
    assert listing == listing[..i] + listing[i..];
    ScanListingAppend(root, files, listing[..i], listing[i..], tag);
  }

  /** A scan succeeds exactly when every listed file lies below the root and is readable. */
  lemma {:induction false} ScanListingSucceeds(
    root: string, files: map<string, Stored>, listing: seq<string>, tag: string)
    ensures ScanListing(root, files, listing, tag).Success? <==>
      forall i :: 0 <= i < |listing| ==> |listing[i]| > |root| && Readable(files, listing[i])
    decreases |listing|
  {
    if listing != [] {
      var init := listing[..|listing| - 1];
      ScanListingSucceeds(root, files, init, tag);
      assert forall i :: 0 <= i < |init| ==> init[i] == listing[i];
    }
  }

  /** The records of a successful scan are exactly the records of the listed files. */
  lemma {:induction false} ScanListingRecords(
    root: string, files: map<string, Stored>, listing: seq<string>, tag: string, t: Translation)
    requires ScanListing(root, files, listing, tag).Success?
    ensures t in ScanListing(root, files, listing, tag).value <==>
      exists i :: 0 <= i < |listing| && ScanFile(root, files, listing[i], tag).Success? &&
        t in ScanFile(root, files, listing[i], tag).value
    decreases |listing|
  {
    if listing != [] {
      var init := listing[..|listing| - 1];
      ScanListingRecords(root, files, init, tag, t);
      ListedFilesLast(root, files, listing, init, tag, t);
    }
  }

  /** Some listed file yields `t` exactly when an earlier one or the last one does. */
  lemma ListedFilesLast(
    root: string, files: map<string, Stored>, listing: seq<string>, init: seq<string>, tag: string, t: Translation)
    requires listing != [] && init == listing[..|listing| - 1]
    ensures var last := listing[|listing| - 1];
      (exists i :: 0 <= i < |listing| && ScanFile(root, files, listing[i], tag).Success? &&
        t in ScanFile(root, files, listing[i], tag).value) <==>
      (exists i :: 0 <= i < |init| && ScanFile(root, files, init[i], tag).Success? &&
        t in ScanFile(root, files, init[i], tag).value) ||
      (ScanFile(root, files, last, tag).Success? && t in ScanFile(root, files, last, tag).value)
  {
    assert forall i :: 0 <= i < |init| ==> init[i] == listing[i];
  }

  /**
   * `full` is a file below `root` whose relative name is a plain name:
   * the root, one separator unless the root ends in one, then the name.
   */
  predicate ListedBelow(root: string, full: string) {
    && root != [] && |full| > |root| && full[..|root|] == root
    && (if IsSeparator(root[|root| - 1]) then !IsRooted(full[|root|..])
        else
          && root[|root| - 1] != ':' && |full| > |root| + 1
          && full[|root|] == DirectorySeparator && !IsRooted(full[|root| + 1..]))
  }

  /** The relative name of a listed file resolves back to that file. */
  lemma ListedBelowResolves(root: string, full: string)
    requires ListedBelow(root, full)
    ensures RelativeName(root, full).Success?
    ensures Combine(root, RelativeName(root, full).value) == full
  {
    if IsSeparator(root[|root| - 1]) {
      assert full == root + full[|root|..];
      RelativeNameRoundTrip(root, full[|root|..], full);
    } else {
      assert full == root + [DirectorySeparator] + full[|root| + 1..];
      RelativeNameRoundTrip(root, full[|root| + 1..], full);
    }
  }

  /**
   * Every record of a successful scan names, relative to the root, a file
   * that was listed: the name an update joins on leads back to it.
   */
  lemma ScanRecordsResolve(
    root: string, files: map<string, Stored>, listing: seq<string>, tag: string, t: Translation)
    requires forall i :: 0 <= i < |listing| ==> ListedBelow(root, listing[i])
    requires ScanListing(root, files, listing, tag).Success?
    requires t in ScanListing(root, files, listing, tag).value
    ensures Combine(root, t.fileName) in listing
  {
    ScanListingRecords(root, files, listing, tag, t);
    var i :| 0 <= i < |listing| && ScanFile(root, files, listing[i], tag).Success? &&
      t in ScanFile(root, files, listing[i], tag).value;
    var rel := RelativeName(root, listing[i]).value;
    SelectTaggedMembers(rel, files[listing[i]].file, tag, t);
    assert t.fileName == rel;
    ListedBelowResolves(root, listing[i]);
  }

  /** An absent tag, an empty tag and the default tag scan alike. */
  lemma ScanDefaultTag(root: string, disk: Disk, listing: seq<string>)
    ensures Scan(root, disk, listing, None) == Scan(root, disk, listing, Some([]))
    ensures Scan(root, disk, listing, None) == Scan(root, disk, listing, Some(DefaultTag))
  {
  }

  // ---------------------------------------------------------------------------
  // Grouping the records of an update

  /** The records that carry a translated text, in their order. */
  function Pending(ts: seq<Translation>): (r: seq<Translation>)
    ensures forall t :: t in r <==> t in ts && t.translatedText != []
    decreases |ts|
  {
    if ts == [] then []
    else
      var t := ts[|ts| - 1];
      assert forall u :: u in ts <==> u in ts[..|ts| - 1] || u == t;
      Pending(ts[..|ts| - 1]) + (if t.translatedText != [] then [t] else [])
  }

  lemma {:induction false} PendingAppend(a: seq<Translation>, b: seq<Translation>)
    ensures Pending(a + b) == Pending(a) + Pending(b)
    decreases |b|
  {
    if b == [] {
      assert a + b == a;
    } else {
      var b' := b[..|b| - 1];
      assert (a + b)[..|a + b| - 1] == a + b';
      PendingAppend(a, b');
    }
  }

  lemma {:induction false} PendingUntranslated(ts: seq<Translation>)
    requires forall t :: t in ts ==> t.translatedText == []
    ensures Pending(ts) == []
    decreases |ts|
  {
    if ts != [] {
      assert forall t :: t in ts[..|ts| - 1] ==> t in ts;
      PendingUntranslated(ts[..|ts| - 1]);
    }
  }

  /** The file names of the records, each once, in order of first appearance. */
  function FileNames(ts: seq<Translation>): (names: seq<string>)
    ensures Distinct(names)
    ensures forall n :: n in names <==> exists t :: t in ts && t.fileName == n
    decreases |ts|
  {
    if ts == [] then []
    else
      var t := ts[|ts| - 1];
      var prev := FileNames(ts[..|ts| - 1]);
      assert forall u :: u in ts <==> u in ts[..|ts| - 1] || u == t;
      if t.fileName in prev then prev else prev + [t.fileName]
  }

  /** The records for one file, in their order. */
  function InFile(ts: seq<Translation>, name: string): (r: seq<Translation>)
    ensures forall t :: t in r <==> t in ts && t.fileName == name
    decreases |ts|
  {
    if ts == [] then []
    else
      var t := ts[|ts| - 1];
      assert forall u :: u in ts <==> u in ts[..|ts| - 1] || u == t;
      InFile(ts[..|ts| - 1], name) + (if t.fileName == name then [t] else [])
  }

  /** Grouping keeps the input order: the records for one file of a concatenation are those of each part. */
  lemma {:induction false} InFileAppend(a: seq<Translation>, b: seq<Translation>, name: string)
    ensures InFile(a + b, name) == InFile(a, name) + InFile(b, name)
    decreases |b|
  {
    if b == [] {
      assert a + b == a;
    } else {
      var b' := b[..|b| - 1];
      var t := b[|b| - 1];
      assert (a + b)[..|a + b| - 1] == a + b';
      assert (a + b)[|a + b| - 1] == t;
      InFileAppend(a, b', name);
      var tail := if t.fileName == name then [t] else [];
      assert InFile(b, name) == InFile(b', name) + tail;
      assert InFile(a + b, name) == InFile(a + b', name) + tail;
    }
  }

  /** Some record before position `q` is for the file `name`. */
  predicate SeenBefore(ts: seq<Translation>, name: string, q: int) {
    exists p :: 0 <= p < q && p < |ts| && ts[p].fileName == name
  }

  /** Before any record of a name, there is a record of every earlier name. */
  predicate InFirstAppearanceOrder(ts: seq<Translation>, names: seq<string>) {
    forall i, j, q :: 0 <= i < j < |names| && 0 <= q < |ts| && ts[q].fileName == names[j] ==>
      SeenBefore(ts, names[i], q)
  }

  /** File names come in order of their first appearance among the records. */
  lemma {:induction false} FileNamesFirstAppearance(ts: seq<Translation>)
    ensures InFirstAppearanceOrder(ts, FileNames(ts))
    decreases |ts|
  {
    if ts != [] {
      var init := ts[..|ts| - 1];
      FileNamesFirstAppearance(init);
      forall i, j, q | 0 <= i < j < |FileNames(ts)| && 0 <= q < |ts| && ts[q].fileName == FileNames(ts)[j]
        ensures SeenBefore(ts, FileNames(ts)[i], q)
      {
        FileNamesStep(ts, i, j, q);
      }
    }
  }

  /** One step of the induction above: the last record is added to `ts[..|ts| - 1]`. */
  lemma FileNamesStep(ts: seq<Translation>, i: int, j: int, q: int)
    requires ts != []
    requires InFirstAppearanceOrder(ts[..|ts| - 1], FileNames(ts[..|ts| - 1]))
    requires 0 <= i < j < |FileNames(ts)| && 0 <= q < |ts| && ts[q].fileName == FileNames(ts)[j]
    ensures SeenBefore(ts, FileNames(ts)[i], q)
  {
    if q < |ts| - 1 {
      FileNamesEarlier(ts, i, j, q);
    } else {
      FileNamesLatest(ts, i, j);
    }
  }

  /** The case of the last record: its name is new or was seen, and every earlier name was seen before it. */
  lemma FileNamesLatest(ts: seq<Translation>, i: int, j: int)
    requires ts != []
    requires 0 <= i < j < |FileNames(ts)| && ts[|ts| - 1].fileName == FileNames(ts)[j]
    ensures SeenBefore(ts, FileNames(ts)[i], |ts| - 1)
  {
    var init := ts[..|ts| - 1];
    var last := ts[|ts| - 1];
    var prev := FileNames(init);
    var names := FileNames(ts);
    assert names == if last.fileName in prev then prev else prev + [last.fileName];
    assert i < |prev| && names[i] == prev[i];
    assert prev[i] in prev;
    var u :| u in init && u.fileName == prev[i];
    var p :| 0 <= p < |init| && init[p] == u;
    assert ts[p] == init[p];
  }

  /** The case of an earlier record: the order among the earlier records carries over. */
  lemma FileNamesEarlier(ts: seq<Translation>, i: int, j: int, q: int)
    requires ts != []
    requires InFirstAppearanceOrder(ts[..|ts| - 1], FileNames(ts[..|ts| - 1]))
    requires 0 <= i < j < |FileNames(ts)| && 0 <= q < |ts| - 1 && ts[q].fileName == FileNames(ts)[j]
    ensures SeenBefore(ts, FileNames(ts)[i], q)
  {
    var init := ts[..|ts| - 1];
    var last := ts[|ts| - 1];
    var prev := FileNames(init);
    var names := FileNames(ts);
    assert names == if last.fileName in prev then prev else prev + [last.fileName];
    assert ts[q] == init[q];
    assert names[j] in prev by {
      assert init[q] in init;
    }
    assert j < |prev| && names[j] == prev[j] && names[i] == prev[i];
    assert SeenBefore(init, prev[i], q);
    var p :| 0 <= p < q && p < |init| && init[p].fileName == prev[i];
    assert ts[p] == init[p];
  }

  datatype Group = Group(fileName: string, records: seq<Translation>)

  /** One group per name, holding the records for that name. */
  function GroupsOf(ts: seq<Translation>, names: seq<string>): (gs: seq<Group>)
    ensures |gs| == |names|
    ensures forall i :: 0 <= i < |gs| ==> gs[i] == Group(names[i], InFile(ts, names[i]))
    decreases |names|
  {
    if names == [] then []
    else [Group(names[0], InFile(ts, names[0]))] + GroupsOf(ts, names[1..])
  }

  /** `GroupBy(x => x.FileName)`: one group per file name, in order of first appearance. */
  function GroupByFile(ts: seq<Translation>): (gs: seq<Group>)
    ensures forall i, j :: 0 <= i < j < |gs| ==> gs[i].fileName != gs[j].fileName
    ensures forall i :: 0 <= i < |gs| ==>
      gs[i].records == InFile(ts, gs[i].fileName) && gs[i].records != []
    ensures forall t :: t in ts ==> exists i :: 0 <= i < |gs| && gs[i].fileName == t.fileName
  {
    var names := FileNames(ts);
    var gs := GroupsOf(ts, names);
    assert forall i :: 0 <= i < |gs| ==> gs[i].fileName == names[i];
    forall i | 0 <= i < |gs|
      ensures gs[i].records != []
    {
      assert names[i] in names;
      var t :| t in ts && t.fileName == names[i];
      assert t in gs[i].records;
    }
    forall t | t in ts
      ensures exists i :: 0 <= i < |gs| && gs[i].fileName == t.fileName
    {
      assert t.fileName in names;
      var i :| 0 <= i < |names| && names[i] == t.fileName;
      assert gs[i].fileName == t.fileName;
    }
    gs
  }

  /** Groups come in order of the first appearance of their file name among the records. */
  lemma GroupByFileOrder(ts: seq<Translation>)
    ensures var gs := GroupByFile(ts);
      forall i, j, q :: 0 <= i < j < |gs| && 0 <= q < |ts| && ts[q].fileName == gs[j].fileName ==>
        SeenBefore(ts, gs[i].fileName, q)
  {
    FileNamesFirstAppearance(ts);
    var names := FileNames(ts);
    var gs := GroupByFile(ts);
    assert gs == GroupsOf(ts, names);
    assert forall i :: 0 <= i < |gs| ==> gs[i].fileName == names[i];
  }

  // ---------------------------------------------------------------------------
  // Applying the records of one file

  /** The keys the records name. */
  function Ids(recs: seq<Translation>): (ids: set<string>)
    ensures forall t :: t in recs ==> t.id in ids
    ensures forall k :: k in ids ==> exists t :: t in recs && t.id == k
    decreases |recs|
  {
    if recs == [] then {}
    else
      assert forall t :: t in recs ==> t in recs[..|recs| - 1] || t == recs[|recs| - 1];
      Ids(recs[..|recs| - 1]) + {recs[|recs| - 1].id}
  }

  /** `recs[i]` is the last record for `key`. */
  predicate IsLastFor(recs: seq<Translation>, key: string, i: int) {
    0 <= i < |recs| && recs[i].id == key && forall j :: i < j < |recs| ==> recs[j].id != key
  }

  /** The translated text of the last record for `key`. */
  function LastText(recs: seq<Translation>, key: string): (text: string)
    requires key in Ids(recs)
    ensures exists i :: IsLastFor(recs, key, i) && text == recs[i].translatedText
    decreases |recs|
  {
    var last := recs[|recs| - 1];
    if last.id == key then
      assert IsLastFor(recs, key, |recs| - 1);
      last.translatedText
    else
      var init := recs[..|recs| - 1];
      assert forall i :: IsLastFor(init, key, i) ==> IsLastFor(recs, key, i);
      LastText(init, key)
  }

  /**
   * The file after reading it, setting each record's key to its translated
   * string, and writing every entry back.
   */
  function ApplyGroup(f: ResourceFile, recs: seq<Translation>): (r: ResourceFile)
    ensures |f.keys| <= |r.keys| <= |f.keys| + |recs|
    decreases |recs|
  {
    if recs == [] then f
    else
      var t := recs[|recs| - 1];
      Put(ApplyGroup(f, recs[..|recs| - 1]), t.id, StringEntry(t.translatedText, ""))
  }

  /**
   * After the update of a file: the keys it had keep their order and come
   * first; every record's key holds the last translated text given for it,
   * as a string with no comment (a missing key is added); every other key
   * keeps its entry.
   */
  lemma ApplyGroupLookup(f: ResourceFile, recs: seq<Translation>)
    ensures var r := ApplyGroup(f, recs);
      && |r.keys| >= |f.keys| && r.keys[..|f.keys|] == f.keys
      && (forall k :: k in r.vals <==> k in f.vals || k in Ids(recs))
      && (forall k :: k in Ids(recs) ==> r.vals[k] == StringEntry(LastText(recs, k), ""))
      && (forall k :: k in f.vals && k !in Ids(recs) ==> r.vals[k] == f.vals[k])
  {
    ApplyGroupKeys(f, recs);
    ApplyGroupValues(f, recs);
  }

  /** The keys after an update: the old ones first and in order, then the new record keys. */
  lemma ApplyGroupKeys(f: ResourceFile, recs: seq<Translation>)
    ensures var r := ApplyGroup(f, recs);
      && |r.keys| >= |f.keys| && r.keys[..|f.keys|] == f.keys
      && (forall k :: k in r.vals <==> k in f.vals || k in Ids(recs))
  {
    ApplyGroupKeyOrder(f, recs);
    ApplyGroupDomain(f, recs);
  }

  lemma {:induction false} ApplyGroupKeyOrder(f: ResourceFile, recs: seq<Translation>)
    ensures |ApplyGroup(f, recs).keys| >= |f.keys| && ApplyGroup(f, recs).keys[..|f.keys|] == f.keys
    decreases |recs|
  {
    if recs != [] {
      var init := recs[..|recs| - 1];
      ApplyGroupKeyOrder(f, init);
      var prev := ApplyGroup(f, init);
      var r := ApplyGroup(f, recs);
      assert r.keys[..|prev.keys|] == prev.keys;
      assert r.keys[..|f.keys|] == r.keys[..|prev.keys|][..|f.keys|];
    }
  }

  lemma {:induction false} ApplyGroupDomain(f: ResourceFile, recs: seq<Translation>)
    ensures ApplyGroup(f, recs).vals.Keys == f.vals.Keys + Ids(recs)
    decreases |recs|
  {
    if recs != [] {
      var init := recs[..|recs| - 1];
      var last := recs[|recs| - 1];
      ApplyGroupDomain(f, init);
      assert Ids(recs) == Ids(init) + {last.id};
    }
  }

  /** The entries after an update: the last text for each record key, the old entry elsewhere. */
  lemma {:induction false} ApplyGroupValues(f: ResourceFile, recs: seq<Translation>)
    ensures var r := ApplyGroup(f, recs);
      && (forall k :: k in Ids(recs) ==> k in r.vals && r.vals[k] == StringEntry(LastText(recs, k), ""))
      && (forall k :: k in f.vals && k !in Ids(recs) ==> k in r.vals && r.vals[k] == f.vals[k])
    decreases |recs|
  {
    if recs != [] {
      var init := recs[..|recs| - 1];
      var last := recs[|recs| - 1];
      ApplyGroupValues(f, init);
      assert recs == init + [last];
      forall k | k in Ids(recs)
        ensures LastText(recs, k) == if k == last.id then last.translatedText else LastText(init, k)
      {
        LastTextLast(init, last, k);
      }
    }
  }

  /** Updating with two runs of records is updating with the first, then the second. */
  lemma {:induction false} ApplyGroupAppend(f: ResourceFile, a: seq<Translation>, b: seq<Translation>)
    ensures ApplyGroup(f, a + b) == ApplyGroup(ApplyGroup(f, a), b)
    decreases |b|
  {
    if b == [] {
      assert a + b == a;
    } else {
      var b' := b[..|b| - 1];
      assert (a + b)[..|a + b| - 1] == a + b';
      ApplyGroupAppend(f, a, b');
    }
  }

  /** When every record's key is already in the file, no key moves and none is added. */
  lemma {:induction false} ApplyGroupKnownKeys(f: ResourceFile, recs: seq<Translation>)
    requires forall t :: t in recs ==> t.id in f.vals
    ensures ApplyGroup(f, recs).keys == f.keys
    ensures forall k :: k in ApplyGroup(f, recs).vals <==> k in f.vals
    decreases |recs|
  {
    if recs != [] {
      var init := recs[..|recs| - 1];
      assert forall t :: t in init ==> t in recs;
      ApplyGroupKnownKeys(f, init);
      var last := recs[|recs| - 1];
      var prev := ApplyGroup(f, init);
      assert last.id in prev.vals by {
        assert last in recs;
      }
      assert ApplyGroup(f, recs) == Put(prev, last.id, StringEntry(last.translatedText, ""));
    }
  }

  /** Writing the same records a second time changes nothing more. */
  lemma ApplyGroupIdempotent(f: ResourceFile, recs: seq<Translation>)
    ensures ApplyGroup(ApplyGroup(f, recs), recs) == ApplyGroup(f, recs)
  {
    var once := ApplyGroup(f, recs);
    var twice := ApplyGroup(once, recs);
    assert twice.keys == once.keys && twice.vals.Keys == once.vals.Keys by {
      ApplyGroupCovers(f, recs);
      ApplyGroupKnownKeys(once, recs);
    }
    forall k | k in once.vals
      ensures twice.vals[k] == once.vals[k]
    {
      ApplyGroupValueAt(f, recs, k);
      ApplyGroupValueAt(once, recs, k);
    }
    assert twice.vals == once.vals;
  }

  /** After an update, every record's key is in the file. */
  lemma ApplyGroupCovers(f: ResourceFile, recs: seq<Translation>)
    ensures forall t :: t in recs ==> t.id in ApplyGroup(f, recs).vals
  {
    ApplyGroupKeys(f, recs);
  }

  /** The entry for one key after an update. */
  lemma ApplyGroupValueAt(f: ResourceFile, recs: seq<Translation>, k: string)
    ensures k in ApplyGroup(f, recs).vals <==> k in f.vals || k in Ids(recs)
    ensures k in Ids(recs) ==> ApplyGroup(f, recs).vals[k] == StringEntry(LastText(recs, k), "")
    ensures k in f.vals && k !in Ids(recs) ==> ApplyGroup(f, recs).vals[k] == f.vals[k]
  {
    ApplyGroupKeys(f, recs);
    ApplyGroupValues(f, recs);
  }

  // ---------------------------------------------------------------------------
  // Updating

  /** The files after an update, and the error that stopped it, if any. */
  datatype UpdateOutcome = UpdateOutcome(files: map<string, Stored>, error: Option<Error>)

  /** One group after the ones before it: read its file, apply its records, write it back. */
  function Step(root: string, prev: UpdateOutcome, g: Group): (r: UpdateOutcome)
    ensures prev.error.Some? ==> r == prev
  {
    if prev.error.Some? then prev
    else
      var fileName := Combine(root, g.fileName);
      match ReadAll(prev.files, fileName)
      case Failure(e) => UpdateOutcome(prev.files, Some(e))
      case Success(f) => UpdateOutcome(prev.files[fileName := Resx(ApplyGroup(f, g.records))], None)
  }

  /** The groups in order; the first file that cannot be read ends the update. */
  function ApplyGroups(root: string, files: map<string, Stored>, gs: seq<Group>): (r: UpdateOutcome)
    ensures r.error.Some? ==> gs != []
    decreases |gs|
  {
    if gs == [] then UpdateOutcome(files, None)
    else Step(root, ApplyGroups(root, files, gs[..|gs| - 1]), gs[|gs| - 1])
  }

  lemma ApplyGroupsPrefix(root: string, files: map<string, Stored>, gs: seq<Group>, i: nat)
    requires i < |gs|
    ensures ApplyGroups(root, files, gs[..i + 1]) == Step(root, ApplyGroups(root, files, gs[..i]), gs[i])
  {
    assert gs[..i + 1][..i] == gs[..i];
  }

  /** `UpdateResources` on a disk holding `files`. */
  function Update(root: string, files: map<string, Stored>, ts: seq<Translation>): (r: UpdateOutcome)
    ensures ts == [] ==> r == UpdateOutcome(files, None)
  {
    ApplyGroups(root, files, GroupByFile(Pending(ts)))
  }

  /** Some group resolves to `path`. */
  ghost predicate Resolves(root: string, gs: seq<Group>, path: string) {
    exists i :: 0 <= i < |gs| && Combine(root, gs[i].fileName) == path
  }

  /** The records of all groups that resolve to `path`, group after group. */
  function RecordsFor(root: string, gs: seq<Group>, path: string): seq<Translation>
    decreases |gs|
  {
    if gs == [] then []
    else
      var g := gs[|gs| - 1];
      RecordsFor(root, gs[..|gs| - 1], path) +
      (if Combine(root, g.fileName) == path then g.records else [])
  }

  lemma ApplyGroupsFailStable(root: string, files: map<string, Stored>, gs: seq<Group>, i: nat)
    requires i <= |gs|
    requires ApplyGroups(root, files, gs[..i]).error.Some?
    ensures ApplyGroups(root, files, gs) == ApplyGroups(root, files, gs[..i])
    decreases |gs| - i
  {
    if i < |gs| {
      assert gs[..i + 1][..i] == gs[..i];
      ApplyGroupsFailStable(root, files, gs, i + 1);
    } else {
      assert gs[..i] == gs;
    }
  }

  /** An update creates and deletes no file, and a readable file stays readable. */
  lemma {:induction false} ApplyGroupsKeepsReadable(root: string, files: map<string, Stored>, gs: seq<Group>)
    ensures ApplyGroups(root, files, gs).files.Keys == files.Keys
    ensures forall p :: Readable(ApplyGroups(root, files, gs).files, p) <==> Readable(files, p)
    decreases |gs|
  {
    if gs != [] {
      ApplyGroupsKeepsReadable(root, files, gs[..|gs| - 1]);
    }
  }

  /** An update succeeds exactly when every group's file can be read. */
  lemma {:induction false} ApplyGroupsSucceeds(root: string, files: map<string, Stored>, gs: seq<Group>)
    ensures ApplyGroups(root, files, gs).error.None? <==>
      forall i :: 0 <= i < |gs| ==> Readable(files, Combine(root, gs[i].fileName))
    decreases |gs|
  {
    if gs != [] {
      var init := gs[..|gs| - 1];
      var g := gs[|gs| - 1];
      var prev := ApplyGroups(root, files, init);
      ApplyGroupsSucceeds(root, files, init);
      ApplyGroupsKeepsReadable(root, files, init);
      StepOutcome(root, prev, g);
      assert ApplyGroups(root, files, gs).error.None? <==>
        prev.error.None? && Readable(files, Combine(root, g.fileName));
      AllReadableLast(root, files, gs, init);
    }
  }

  /** Every group's file is readable exactly when the earlier groups' files and the last one's are. */
  lemma AllReadableLast(root: string, files: map<string, Stored>, gs: seq<Group>, init: seq<Group>)
    requires gs != [] && init == gs[..|gs| - 1]
    ensures (forall i :: 0 <= i < |gs| ==> Readable(files, Combine(root, gs[i].fileName))) <==>
      (forall i :: 0 <= i < |init| ==> Readable(files, Combine(root, init[i].fileName))) &&
      Readable(files, Combine(root, gs[|gs| - 1].fileName))
  {
    assert forall i :: 0 <= i < |init| ==> init[i] == gs[i];
  }

  /** One group after a successful run: the read error, or its file rewritten with the group applied. */
  lemma StepRead(root: string, files: map<string, Stored>, g: Group)
    ensures var fileName := Combine(root, g.fileName);
      ReadAll(files, fileName).Failure? ==>
        Step(root, UpdateOutcome(files, None), g) ==
        UpdateOutcome(files, Some(ReadAll(files, fileName).error))
    ensures var fileName := Combine(root, g.fileName);
      ReadAll(files, fileName).Success? ==>
        Step(root, UpdateOutcome(files, None), g) ==
        UpdateOutcome(files[fileName := Resx(ApplyGroup(ReadAll(files, fileName).value, g.records))], None)
  {
  }

  /** One pass of the group loop, after a run of groups that succeeded: it stops with a read error or rewrites one file. */
  lemma ApplyGroupsNext(root: string, files0: map<string, Stored>, gs: seq<Group>, i: int, files: map<string, Stored>)
    requires 0 <= i < |gs|
    requires ApplyGroups(root, files0, gs[..i]) == UpdateOutcome(files, None)
    ensures var fileName := Combine(root, gs[i].fileName);
      ReadAll(files, fileName).Failure? ==>
        ApplyGroups(root, files0, gs) == UpdateOutcome(files, Some(ReadAll(files, fileName).error))
    ensures var fileName := Combine(root, gs[i].fileName);
      ReadAll(files, fileName).Success? ==>
        ApplyGroups(root, files0, gs[..i + 1]) ==
        UpdateOutcome(files[fileName := Resx(ApplyGroup(ReadAll(files, fileName).value, gs[i].records))], None)
  {
    ApplyGroupsPrefix(root, files0, gs, i);
    StepRead(root, files, gs[i]);
    if ReadAll(files, Combine(root, gs[i].fileName)).Failure? {
      ApplyGroupsFailStable(root, files0, gs, i + 1);
    }
  }

  /** One group succeeds exactly when the ones before it did and its file can be read. */
  lemma StepOutcome(root: string, prev: UpdateOutcome, g: Group)
    ensures Step(root, prev, g).error.None? <==>
      prev.error.None? && Readable(prev.files, Combine(root, g.fileName))
  {
  }

  /**
   * Group `i` stopped the update: the groups before it have readable files
   * and were applied, its own file cannot be read, and the update ended
   * there with that file's read error.
   */
  predicate FailsAt(root: string, files: map<string, Stored>, gs: seq<Group>, i: int) {
    && 0 <= i < |gs|
    && !Readable(files, Combine(root, gs[i].fileName))
    && (forall j :: 0 <= j < i ==> Readable(files, Combine(root, gs[j].fileName)))
    && ApplyGroups(root, files, gs[..i]).error.None?
    && ApplyGroups(root, files, gs) ==
       UpdateOutcome(ApplyGroups(root, files, gs[..i]).files,
                     Some(ReadAll(files, Combine(root, gs[i].fileName)).error))
  }

  /** An update fails exactly when some group stopped it, and that is the first group whose file cannot be read. */
  lemma {:induction false} ApplyGroupsFailure(root: string, files: map<string, Stored>, gs: seq<Group>)
    ensures ApplyGroups(root, files, gs).error.Some? <==> exists i :: FailsAt(root, files, gs, i)
    decreases |gs|
  {
    if gs != [] {
      var init := gs[..|gs| - 1];
      ApplyGroupsFailure(root, files, init);
      if ApplyGroups(root, files, init).error.Some? {
        var i :| FailsAt(root, files, init, i);
        FailsAtExtend(root, files, gs, i);
      } else if ApplyGroups(root, files, gs).error.Some? {
        FailsAtLast(root, files, gs);
      }
    }
  }

  /** A group that stopped the update of a prefix stops the whole update. */
  lemma FailsAtExtend(root: string, files: map<string, Stored>, gs: seq<Group>, i: int)
    requires gs != [] && FailsAt(root, files, gs[..|gs| - 1], i)
    ensures FailsAt(root, files, gs, i)
  {
    var init := gs[..|gs| - 1];
    assert forall j :: 0 <= j < |init| ==> init[j] == gs[j];
    assert init[..i] == gs[..i];
  }

  /** When the groups before the last succeed and the whole update fails, the last group stopped it. */
  lemma FailsAtLast(root: string, files: map<string, Stored>, gs: seq<Group>)
    requires gs != []
    requires ApplyGroups(root, files, gs[..|gs| - 1]).error.None?
    requires ApplyGroups(root, files, gs).error.Some?
    ensures FailsAt(root, files, gs, |gs| - 1)
  {
    var init := gs[..|gs| - 1];
    var prev := ApplyGroups(root, files, init);
    var p := Combine(root, gs[|gs| - 1].fileName);
    assert gs[..|gs| - 1] == init;
    ApplyGroupsSucceeds(root, files, init);
    ApplyGroupsKeepsReadable(root, files, init);
    assert forall j :: 0 <= j < |init| ==> init[j] == gs[j];
    assert !Readable(prev.files, p);
    assert ReadAll(prev.files, p).error == ReadAll(files, p).error;
  }

  /** A file no group resolves to is neither read nor written, whatever the outcome. */
  lemma {:induction false} ApplyGroupsUntouched(
    root: string, files: map<string, Stored>, gs: seq<Group>, path: string)
    requires !Resolves(root, gs, path)
    ensures path in ApplyGroups(root, files, gs).files <==> path in files
    ensures path in files ==> ApplyGroups(root, files, gs).files[path] == files[path]
    decreases |gs|
  {
    if gs != [] {
      var init := gs[..|gs| - 1];
      assert !Resolves(root, init, path) by {
        assert forall i :: 0 <= i < |init| ==> init[i] == gs[i];
      }
      ApplyGroupsUntouched(root, files, init, path);
      assert Combine(root, gs[|gs| - 1].fileName) != path;
    }
  }

  /**
   * After a successful update, a readable file holds its old content updated
   * with the records of every group that resolves to it, in group order.
   */
  lemma {:induction false} ApplyGroupsAt(root: string, files: map<string, Stored>, gs: seq<Group>, path: string)
    requires ApplyGroups(root, files, gs).error.None?
    requires Readable(files, path)
    ensures path in ApplyGroups(root, files, gs).files
    ensures ApplyGroups(root, files, gs).files[path] ==
            Resx(ApplyGroup(files[path].file, RecordsFor(root, gs, path)))
    decreases |gs|
  {
    var f0 := files[path].file;
    ApplyGroupsKeepsReadable(root, files, gs);
    if gs != [] {
      var init := gs[..|gs| - 1];
      var g := gs[|gs| - 1];
      var prev := ApplyGroups(root, files, init);
      assert prev.error.None?;
      ApplyGroupsAt(root, files, init, path);
      var fileName := Combine(root, g.fileName);
      var read := ReadAll(prev.files, fileName);
      assert read.Success?;
      var out := prev.files[fileName := Resx(ApplyGroup(read.value, g.records))];
      assert ApplyGroups(root, files, gs).files == out;
      var before := RecordsFor(root, init, path);
      if fileName == path {
        assert RecordsFor(root, gs, path) == before + g.records;
        assert read.value == ApplyGroup(f0, before);
        ApplyGroupAppend(f0, before, g.records);
        assert out[path] == Resx(ApplyGroup(f0, before + g.records));
      } else {
        assert RecordsFor(root, gs, path) == before + [];
        assert before + [] == before;
        assert out[path] == prev.files[path];
      }
    }
  }

  /** Translations with an empty translated text change nothing, wherever they stand. */
  lemma UpdateIgnoresUntranslated(
    root: string, files: map<string, Stored>, a: seq<Translation>, e: seq<Translation>, b: seq<Translation>)
    requires forall t :: t in e ==> t.translatedText == []
    ensures Update(root, files, a + e + b) == Update(root, files, a + b)
  {
    PendingAppend(a + e, b);
    PendingAppend(a, e);
    PendingAppend(a, b);
    PendingUntranslated(e);
    assert Pending(a) + [] == Pending(a);
  }

  /**
   * A file that no record with a translated text resolves to is not read and
   * not rewritten: it is the same after the update, even one that fails.
   */
  lemma UpdateLeavesOtherFiles(root: string, files: map<string, Stored>, ts: seq<Translation>, path: string)
    requires forall t :: t in ts && t.translatedText != [] ==> Combine(root, t.fileName) != path
    ensures path in Update(root, files, ts).files <==> path in files
    ensures path in files ==> Update(root, files, ts).files[path] == files[path]
  {
    var gs := GroupByFile(Pending(ts));
    assert !Resolves(root, gs, path) by {
      forall i | 0 <= i < |gs|
        ensures Combine(root, gs[i].fileName) != path
      {
        var t := gs[i].records[0];
        assert t in InFile(Pending(ts), gs[i].fileName);
      }
    }
    ApplyGroupsUntouched(root, files, gs, path);
  }

  /** An update fails exactly when some record with a translated text names a file it cannot read. */
  lemma UpdateSucceeds(root: string, files: map<string, Stored>, ts: seq<Translation>)
    ensures Update(root, files, ts).error.None? <==>
      forall t :: t in ts && t.translatedText != [] ==> Readable(files, Combine(root, t.fileName))
  {
    var gs := GroupByFile(Pending(ts));
    ApplyGroupsSucceeds(root, files, gs);
    forall i | 0 <= i < |gs|
      ensures exists t :: t in ts && t.translatedText != [] && t.fileName == gs[i].fileName
    {
      var t := gs[i].records[0];
      assert t in InFile(Pending(ts), gs[i].fileName);
    }
  }

  /** The error reading `p` reports: the file is missing, or it does not parse. */
  predicate ReadFailure(files: map<string, Stored>, p: string, e: Error) {
    if p in files then e == FormatError(p) else e == FileNotFound(p)
  }

  /**
   * A failed update stopped at the first file, in order of first appearance
   * of the file names, that is missing (FileNotFound) or does not parse
   * (FormatError); the files of all earlier groups have been rewritten.
   */
  lemma UpdateFailure(root: string, files: map<string, Stored>, ts: seq<Translation>)
    requires Update(root, files, ts).error.Some?
    ensures exists i ::
      && FailsAt(root, files, GroupByFile(Pending(ts)), i)
      && ReadFailure(files, Combine(root, GroupByFile(Pending(ts))[i].fileName), Update(root, files, ts).error.value)
  {
    var gs := GroupByFile(Pending(ts));
    ApplyGroupsFailure(root, files, gs);
    var i :| FailsAt(root, files, gs, i);
    assert ReadFailure(files, Combine(root, gs[i].fileName), Update(root, files, ts).error.value);
  }

  /** With distinct relative names, exactly the group of `name` resolves to `Combine(root, name)`. */
  lemma {:induction false} RecordsForRelative(root: string, gs: seq<Group>, name: string)
    requires root != [] && !IsRooted(name)
    requires forall i :: 0 <= i < |gs| ==> !IsRooted(gs[i].fileName)
    requires forall i, j :: 0 <= i < j < |gs| ==> gs[i].fileName != gs[j].fileName
    ensures forall i :: 0 <= i < |gs| && gs[i].fileName == name ==>
      RecordsFor(root, gs, Combine(root, name)) == gs[i].records
    ensures (forall i :: 0 <= i < |gs| ==> gs[i].fileName != name) ==>
      RecordsFor(root, gs, Combine(root, name)) == []
    decreases |gs|
  {
    if gs != [] {
      var init := gs[..|gs| - 1];
      var g := gs[|gs| - 1];
      var p := Combine(root, name);
      assert forall i :: 0 <= i < |init| ==> init[i] == gs[i];
      RecordsForRelative(root, init, name);
      if g.fileName == name {
        assert forall i :: 0 <= i < |init| ==> init[i].fileName != name;
        assert RecordsFor(root, init, p) == [];
        assert RecordsFor(root, gs, p) == [] + g.records;
      } else {
        if Combine(root, g.fileName) == p {
          CombineInjective(root, g.fileName, name);
        }
        assert RecordsFor(root, gs, p) == RecordsFor(root, init, p) + [];
      }
    }
  }

  /**
   * Where no translated record names a rooted path, a successful update
   * leaves each named file holding its old content updated with exactly the
   * translated records for that file, in their order; with
   * `ApplyGroupLookup`, the last record for a key wins.
   */
  lemma UpdateFileContents(root: string, files: map<string, Stored>, ts: seq<Translation>, name: string)
    requires root != [] && !IsRooted(name)
    requires forall t :: t in ts && t.translatedText != [] ==> !IsRooted(t.fileName)
    requires Update(root, files, ts).error.None?
    requires exists t :: t in ts && t.translatedText != [] && t.fileName == name
    ensures Readable(files, Combine(root, name))
    ensures Combine(root, name) in Update(root, files, ts).files
    ensures Update(root, files, ts).files[Combine(root, name)] ==
      Resx(ApplyGroup(files[Combine(root, name)].file, InFile(Pending(ts), name)))
  {
    var gs := GroupByFile(Pending(ts));
    var p := Combine(root, name);
    var t :| t in ts && t.translatedText != [] && t.fileName == name;
    assert Readable(files, p) by {
      UpdateSucceeds(root, files, ts);
    }
    assert RecordsFor(root, gs, p) == InFile(Pending(ts), name) by {
      forall i | 0 <= i < |gs|
        ensures !IsRooted(gs[i].fileName)
      {
        var u := gs[i].records[0];
        assert u in InFile(Pending(ts), gs[i].fileName);
      }
      assert t in Pending(ts);
      var i :| 0 <= i < |gs| && gs[i].fileName == name;
      RecordsForRelative(root, gs, name);
    }
    ApplyGroupsAt(root, files, gs, p);
  }

  /** Running the same update twice leaves the files as running it once. */
  lemma UpdateIdempotent(root: string, files: map<string, Stored>, ts: seq<Translation>)
    requires Update(root, files, ts).error.None?
    ensures Update(root, Update(root, files, ts).files, ts) == Update(root, files, ts)
  {
    var gs := GroupByFile(Pending(ts));
    var once := ApplyGroups(root, files, gs);
    ApplyGroupsRerunSucceeds(root, files, gs);
    var twice := ApplyGroups(root, once.files, gs);
    ApplyGroupsKeepsReadable(root, files, gs);
    ApplyGroupsKeepsReadable(root, once.files, gs);
    forall p | p in once.files
      ensures p in twice.files && twice.files[p] == once.files[p]
    {
      ApplyGroupsIdempotentAt(root, files, gs, p);
    }
    assert twice.files == once.files;
  }

  /** A run that succeeded succeeds again on the files it left. */
  lemma ApplyGroupsRerunSucceeds(root: string, files: map<string, Stored>, gs: seq<Group>)
    requires ApplyGroups(root, files, gs).error.None?
    ensures ApplyGroups(root, ApplyGroups(root, files, gs).files, gs).error.None?
  {
    ApplyGroupsKeepsReadable(root, files, gs);
    ApplyGroupsSucceeds(root, files, gs);
    ApplyGroupsSucceeds(root, ApplyGroups(root, files, gs).files, gs);
  }

  /** One path of the lemma above: a second run leaves it as the first run left it. */
  lemma ApplyGroupsIdempotentAt(root: string, files: map<string, Stored>, gs: seq<Group>, p: string)
    requires ApplyGroups(root, files, gs).error.None?
    requires ApplyGroups(root, ApplyGroups(root, files, gs).files, gs).error.None?
    requires p in files
    ensures var once := ApplyGroups(root, files, gs);
      var twice := ApplyGroups(root, once.files, gs);
      p in once.files && p in twice.files && twice.files[p] == once.files[p]
  {
    if Readable(files, p) {
      ApplyGroupsIdempotentReadable(root, files, gs, p);
    } else {
      ApplyGroupsSucceeds(root, files, gs);
      assert !Resolves(root, gs, p);
      var once := ApplyGroups(root, files, gs);
      ApplyGroupsUntouched(root, files, gs, p);
      ApplyGroupsUntouched(root, once.files, gs, p);
    }
  }

  /** The same for a readable file: applying its records a second time changes nothing. */
  lemma ApplyGroupsIdempotentReadable(root: string, files: map<string, Stored>, gs: seq<Group>, p: string)
    requires ApplyGroups(root, files, gs).error.None?
    requires ApplyGroups(root, ApplyGroups(root, files, gs).files, gs).error.None?
    requires Readable(files, p)
    ensures var once := ApplyGroups(root, files, gs);
      var twice := ApplyGroups(root, once.files, gs);
      p in once.files && p in twice.files && twice.files[p] == once.files[p]
  {
    var once := ApplyGroups(root, files, gs);
    var f0 := files[p].file;
    var recs := RecordsFor(root, gs, p);
    ApplyGroupsAt(root, files, gs, p);
    assert once.files[p] == Resx(ApplyGroup(f0, recs));
    assert Readable(once.files, p);
    ApplyGroupsAt(root, once.files, gs, p);
    ApplyGroupIdempotent(f0, recs);
  }

  /** `t` carries a translated text for `key` in the file `name`. */
  predicate Translates(t: Translation, name: string, key: string) {
    t.translatedText != [] && t.fileName == name && t.id == key
  }

  /** `ts[i]` is the last record of `ts` that translates `key` in `name`. */
  predicate IsLastTranslation(ts: seq<Translation>, name: string, key: string, i: int) {
    0 <= i < |ts| && Translates(ts[i], name, key) &&
    forall j :: i < j < |ts| ==> !Translates(ts[j], name, key)
  }

  /** The translated text of the last record in the input for `key` in `name`. */
  function LastTranslated(ts: seq<Translation>, name: string, key: string): (text: string)
    requires exists t :: t in ts && Translates(t, name, key)
    ensures exists i :: IsLastTranslation(ts, name, key, i) && text == ts[i].translatedText
    decreases |ts|
  {
    var last := ts[|ts| - 1];
    if Translates(last, name, key) then
      assert IsLastTranslation(ts, name, key, |ts| - 1);
      last.translatedText
    else
      var init := ts[..|ts| - 1];
      assert forall t :: t in ts ==> t in init || t == last;
      assert forall i :: IsLastTranslation(init, name, key, i) ==> IsLastTranslation(ts, name, key, i);
      LastTranslated(init, name, key)
  }

  /** The pending records of one file, one input record at a time. */
  lemma InFilePendingLast(ts: seq<Translation>, name: string)
    requires ts != []
    ensures var last := ts[|ts| - 1];
      InFile(Pending(ts), name) ==
      InFile(Pending(ts[..|ts| - 1]), name) +
      (if last.translatedText != [] && last.fileName == name then [last] else [])
  {
    var init := ts[..|ts| - 1];
    var last := ts[|ts| - 1];
    var x := if last.translatedText != [] then [last] else [];
    assert Pending(ts) == Pending(init) + x;
    InFileAppend(Pending(init), x, name);
    if x != [] {
      assert x[..0] == [];
    }
  }

  /** The last record for `key` in a run extended by `t`. */
  lemma LastTextLast(recs: seq<Translation>, t: Translation, key: string)
    requires key in Ids(recs + [t])
    ensures t.id != key ==> key in Ids(recs)
    ensures LastText(recs + [t], key) == if t.id == key then t.translatedText else LastText(recs, key)
  {
    assert (recs + [t])[..|recs|] == recs;
  }

  /** A key some record translates in `name` is among the keys of that file's pending records. */
  lemma TranslatedKeyPending(ts: seq<Translation>, name: string, key: string)
    requires exists t :: t in ts && Translates(t, name, key)
    ensures key in Ids(InFile(Pending(ts), name))
  {
    var t :| t in ts && Translates(t, name, key);
    assert t in Pending(ts);
    assert t in InFile(Pending(ts), name);
  }

  /** Filtering and grouping keep the order, so the last record of a group is the last one in the input. */
  lemma {:induction false} LastTextPending(ts: seq<Translation>, name: string, key: string)
    requires exists t :: t in ts && Translates(t, name, key)
    ensures key in Ids(InFile(Pending(ts), name))
    ensures LastText(InFile(Pending(ts), name), key) == LastTranslated(ts, name, key)
    decreases |ts|
  {
    var recs := InFile(Pending(ts), name);
    TranslatedKeyPending(ts, name, key);
    var init := ts[..|ts| - 1];
    var last := ts[|ts| - 1];
    var a := InFile(Pending(init), name);
    InFilePendingLast(ts, name);
    LastTranslatedLast(ts, name, key);
    if Translates(last, name, key) {
      assert recs == a + [last];
      LastTextLast(a, last, key);
    } else if last.translatedText != [] && last.fileName == name {
      assert recs == a + [last];
      LastTextLast(a, last, key);
      LastTextPending(init, name, key);
    } else {
      assert recs == a;
      LastTextPending(init, name, key);
    }
  }

  /** `LastTranslated`, one input record at a time. */
  lemma LastTranslatedLast(ts: seq<Translation>, name: string, key: string)
    requires exists t :: t in ts && Translates(t, name, key)
    ensures var last := ts[|ts| - 1];
      Translates(last, name, key) ==> LastTranslated(ts, name, key) == last.translatedText
    ensures var init := ts[..|ts| - 1];
      !Translates(ts[|ts| - 1], name, key) ==>
        (exists t :: t in init && Translates(t, name, key)) &&
        LastTranslated(ts, name, key) == LastTranslated(init, name, key)
  {
    var init := ts[..|ts| - 1];
    var last := ts[|ts| - 1];
    if !Translates(last, name, key) {
      var t :| t in ts && Translates(t, name, key);
      assert t in init || t == last;
    }
  }

  /**
   * After a successful update, the entry for `key` in the file `name` holds
   * the translated text of the last record for that file and key in the
   * input, as a string with no comment.
   */
  lemma UpdateLastWins(root: string, files: map<string, Stored>, ts: seq<Translation>, name: string, key: string)
    requires root != [] && !IsRooted(name)
    requires forall t :: t in ts && t.translatedText != [] ==> !IsRooted(t.fileName)
    requires Update(root, files, ts).error.None?
    requires exists t :: t in ts && Translates(t, name, key)
    ensures Combine(root, name) in Update(root, files, ts).files
    ensures Update(root, files, ts).files[Combine(root, name)].Resx?
    ensures var f := Update(root, files, ts).files[Combine(root, name)].file;
      key in f.vals && f.vals[key] == StringEntry(LastTranslated(ts, name, key), "")
  {
    var t :| t in ts && Translates(t, name, key);
    UpdateFileContents(root, files, ts, name);
    LastTextPending(ts, name, key);
    ApplyGroupLookup(files[Combine(root, name)].file, InFile(Pending(ts), name));
  }
}
