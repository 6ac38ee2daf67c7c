/** The archive side of `create_filtered_zip`: the source archive's member
    list, the output archive that `writestr` appends to, the copy loop that
    counts what it copies, and the whole operation from parsed CSV rows to
    output archive. Payloads are opaque bytes; compression is not modelled. */
module Archive {
  import opened Selection

  /** An archive entry: its name and its uncompressed bytes. */
  datatype Member = Member(name: string, data: seq<bv8>)

  /** A readable source archive, its entries in central-directory order. */
  datatype SourceArchive = SourceArchive(members: seq<Member>)

  /** `namelist()`: the entry names in archive order, duplicates included. */
  function NameList(a: SourceArchive): seq<string>
  {
    seq(|a.members|, i requires 0 <= i < |a.members| => a.members[i].name)
  }

  /** The entry `read(name)` reads: `zipfile` indexes entries by name with
      later entries replacing earlier ones, so it is the last one so named. */
  function LastIndex(members: seq<Member>, name: string): (k: nat)
    requires exists i :: 0 <= i < |members| && members[i].name == name
    ensures k < |members| && members[k].name == name
    ensures forall j :: k < j < |members| ==> members[j].name != name
  {
    if members[|members| - 1].name == name then |members| - 1
    else
      var init := members[..|members| - 1];
      assert exists i :: 0 <= i < |init| && init[i].name == name by {
        var i :| 0 <= i < |members| && members[i].name == name;
        assert init[i] == members[i];
      }
      LastIndex(init, name)
  }

  /** `source_zip.read(name)` for a name of the member list. */
  function ReadMember(a: SourceArchive, name: string): seq<bv8>
    requires name in NameList(a)
  {
    a.members[LastIndex(a.members, name)].data
  }

  /** What copying `names` one by one from `a` writes, in order. */
  function Extracted(a: SourceArchive, names: seq<string>): seq<Member>
    requires forall x :: x in names ==> x in NameList(a)
  {
    seq(|names|, i requires 0 <= i < |names| => Member(names[i], ReadMember(a, names[i])))
  }

  /** An archive opened for writing; `writestr` appends an entry. */
  class ZipWriter {
    var entries: seq<Member>

    /** `ZipFile(path, 'w')`: a new, empty archive. */
    constructor ()
      ensures entries == []
    {
      entries := [];
    }

    /** `writestr(name, data)`. */
    method WriteStr(name: string, data: seq<bv8>)
      modifies this
      ensures entries == old(entries) + [Member(name, data)]
    {
      entries := entries + [Member(name, data)];
    }
  }

  /** The copy loop: each filtered name is read from the source and written
      to the target in list order, and `extracted_count` counts the writes. */
  method CopyMembers(source: SourceArchive, filtered: seq<string>, target: ZipWriter)
    returns (extractedCount: nat)
    requires forall x :: x in filtered ==> x in NameList(source)
    modifies target
    ensures extractedCount == |filtered|
    ensures target.entries == old(target.entries) + Extracted(source, filtered)
  {
    extractedCount := 0;
    for k := 0 to |filtered|
      invariant extractedCount == k
      invariant target.entries == old(target.entries) + Extracted(source, filtered)[..k]
    {
      var zipMember := filtered[k];
      var data := ReadMember(source, zipMember);
      target.WriteStr(zipMember, data);
      extractedCount := extractedCount + 1;
    }
    assert Extracted(source, filtered)[..|filtered|] == Extracted(source, filtered);
  }

  /** The whole of `create_filtered_zip` on an already parsed CSV and an
      already opened source archive: either the CSV error, or the entries of
      the new archive. */
  function FilteredArchive(source: SourceArchive, rows: seq<DictRow>, column: string)
    : Result<seq<Member>, CsvError>
  {
    match ReadFilenames(rows, column)
    case Err(e) => Err(e)
    case Ok(files) => Ok(Extracted(source, FilterNames(NameList(source), files)))
  }

  /** The output archive holds only entries of the source archive, name and
      content, and only under names the CSV column lists. */
  lemma FilteredArchiveIsSelection(source: SourceArchive, rows: seq<DictRow>, column: string, m: Member)
    requires FilteredArchive(source, rows, column).Ok?
    requires m in FilteredArchive(source, rows, column).value
    ensures m in source.members
    ensures m.name in NamedFiles(rows, column)
  {
    ReadFilenamesOk(rows, column);
    var out := FilteredArchive(source, rows, column).value;
    var i :| 0 <= i < |out| && out[i] == m;
    var k := LastIndex(source.members, m.name);
    assert m == source.members[k];
  }

  /** A filename the CSV lists but the archive does not hold gives no entry,
      and causes no error. */
  lemma AbsentNameIgnored(source: SourceArchive, rows: seq<DictRow>, column: string, name: string)
    requires ReadFilenames(rows, column).Ok? && name !in NameList(source)
    ensures FilteredArchive(source, rows, column).Ok?
    ensures forall m :: m in FilteredArchive(source, rows, column).value ==> m.name != name
  {
    forall m | m in FilteredArchive(source, rows, column).value ensures m.name != name {
      FilteredArchiveIsSelection(source, rows, column, m);
    }
  }

  /** The output holds, in archive order, one entry for each position of
      the member list whose name the CSV lists, and nothing else. */
  lemma FilteredArchiveOrder(source: SourceArchive, rows: seq<DictRow>, column: string)
    requires ReadFilenames(rows, column).Ok?
    ensures var out, files := FilteredArchive(source, rows, column).value, ReadFilenames(rows, column).value;
      var idx := KeptPositions(NameList(source), files);
      && |out| == |idx|
      && (forall k :: 0 <= k < |idx| ==> idx[k] < |source.members| && out[k].name == source.members[idx[k]].name
                                          && source.members[idx[k]].name in files)
      && (forall a, b :: 0 <= a < b < |idx| ==> idx[a] < idx[b])
      && (forall j :: 0 <= j < |source.members| && source.members[j].name in files ==> j in idx)
  {
    FilterNamesPositions(NameList(source), ReadFilenames(rows, column).value);
  }

  /** `create_filtered_zip` after its file checks: read the filename set,
      filter the member list, create the output archive and copy. On a CSV
      error nothing is created. */
  method CreateFilteredZip(source: SourceArchive, rows: seq<DictRow>, column: string)
    returns (outcome: Result<nat, CsvError>, target: ZipWriter?)
    ensures FilteredArchive(source, rows, column).Err? ==>
      outcome == Err(FilteredArchive(source, rows, column).error) && target == null
    ensures FilteredArchive(source, rows, column).Ok? ==>
      && target != null && fresh(target)
      && target.entries == FilteredArchive(source, rows, column).value
      && outcome == Ok(|target.entries|)
  {
    var read := CollectFilenames(rows, column);
    if read.Err? {
      return Err(read.error), null;
    }
    var filesToExtract := read.value;
    var allFilesInZip := NameList(source);
    var filesFiltered := FilterNames(allFilesInZip, filesToExtract);
    target := new ZipWriter();
    var extractedCount := CopyMembers(source, filesFiltered, target);
    outcome := Ok(extractedCount);
  }
}
