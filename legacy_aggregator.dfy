/** The earlier, unpackaged `ArriRawLegacyMetadataReader`, over the
    earlier `BinaryFileDTO`: the same nine blocks in the same order over
    one header buffer, appended one by one. */
module LegacyAggregator {
  import opened Wrappers
  import opened Bytes
  import opened Metadata
  import opened DtoSpec
  import opened LegacySpec
  import opened LegacyDto
  import opened Merge

  /** The data each reader stored, in reader order. */
  function DataOf(objs: seq<LegacyBinaryFileDTO>): (ds: seq<MetadataMap>)
    reads set j | 0 <= j < |objs| :: objs[j]
    ensures |ds| == |objs|
    ensures forall i :: 0 <= i < |objs| ==> ds[i] == objs[i].data
  {
    seq(|objs|, i requires 0 <= i < |objs| reads set j | 0 <= j < |objs| :: objs[j] => objs[i].data)
  }

  /** Each reader's catalog names, in reader order. */
  function FieldNamesOf(objs: seq<LegacyBinaryFileDTO>): (ls: seq<seq<string>>)
    reads set j | 0 <= j < |objs| :: objs[j]
    ensures |ls| == |objs|
    ensures forall i :: 0 <= i < |objs| ==> ls[i] == Names(objs[i].fields)
  {
    seq(|objs|, i requires 0 <= i < |objs| reads set j | 0 <= j < |objs| :: objs[j] => Names(objs[i].fields))
  }

  /** One block reader, built over the header, and what the block
      reader function gives for its catalog. */
  method LoadBlock(raw: seq<Byte>, fieldsToExtract: Option<seq<string>>, catalog: Catalog,
                   ghost read: Catalog -> Result<MetadataMap, Error>)
    returns (block: Result<LegacyBinaryFileDTO, Error>)
    requires IsDraftReader(read, raw, fieldsToExtract)
    ensures block.Failure? ==> read(catalog) == Failure(block.error)
    ensures block.Success? ==>
      fresh(block.value) && block.value.fields == catalog && read(catalog) == Success(block.value.data)
  {
    block := LegacyBinaryFileDTO.Load(raw, fieldsToExtract, catalog);
    assert read(catalog) == DraftBlock(raw, fieldsToExtract, catalog);
  }

  class ArriRawLegacyMetadataReader {
    const rawdata: seq<Byte>
    const fieldsToExtract: Option<seq<string>>
    ghost const catalogs: seq<Catalog>
    var objects: seq<LegacyBinaryFileDTO>

    /** The readers are the nine blocks' readers over `rawdata`, in order. */
    ghost predicate Valid()
      reads this, set i | 0 <= i < |objects| :: objects[i]
    {
      |objects| == |catalogs| == |Blocks| &&
      (forall i :: 0 <= i < |objects| ==> objects[i].fields == catalogs[i]) &&
      AllBlocks(Reader(Draft, rawdata, fieldsToExtract), catalogs) == Success(DataOf(objects))
    }

    constructor (rawdata: seq<Byte>, fieldsToExtract: Option<seq<string>>, ghost catalogs: seq<Catalog>)
      ensures this.rawdata == rawdata && this.fieldsToExtract == fieldsToExtract
      ensures this.catalogs == catalogs && objects == []
    {
      this.rawdata := rawdata;
      this.fieldsToExtract := fieldsToExtract;
      this.catalogs := catalogs;
      objects := [];
    }

    /** The nine `self.objects.append(...)` calls of `__init__`: the block
        readers over `rawdata` are appended in block order, the first
        exception aborting. */
    method AppendBlocks(catalogOf: BlockKind -> Catalog, ghost read: Catalog -> Result<MetadataMap, Error>)
      returns (err: Option<Error>)
      requires objects == [] && catalogs == CatalogsOf(catalogOf)
      requires IsDraftReader(read, rawdata, fieldsToExtract)
      modifies this
      ensures var blocks := AllBlocks(read, catalogs);
        (err.None? <==> blocks.Success?) &&
        (err.Some? ==> blocks == Failure(err.value)) &&
        (err.None? ==>
          |objects| == |catalogs| && (forall i :: 0 <= i < |objects| ==> objects[i].fields == catalogs[i]) &&
          blocks.value == DataOf(objects))
    {
      var i := 0;
      while i < |Blocks|
        invariant 0 <= i <= |Blocks| && |objects| == i
        invariant forall j :: 0 <= j < i ==> objects[j].fields == catalogs[j]
        invariant forall j :: 0 <= j < i ==> read(catalogs[j]) == Success(objects[j].data)
      {
        var block := LoadBlock(rawdata, fieldsToExtract, catalogOf(Blocks[i]), read);
        if block.Failure? {
          AllBlocksFirstFailure(read, catalogs, i);
          return Some(block.error);
        }
        objects := objects + [block.value];
        i := i + 1;
      }
      AllBlocksAllRead(read, catalogs, DataOf(objects));
      err := None;
    }

    /** `__init__`: `FileNotFoundError` is re-raised as it is; otherwise
        4096 bytes are read and the readers are appended in block order,
        the first exception aborting. */
    static method Open(source: Result<seq<Byte>, Error>, fieldsToExtract: Option<seq<string>>,
                       catalogOf: BlockKind -> Catalog) returns (r: Result<ArriRawLegacyMetadataReader, Error>)
      ensures source.Failure? ==> r == Failure(source.error)
      ensures source.Success? ==>
        var raw := Head(source.value, HeaderSize);
        var blocks := AllBlocks(Reader(Draft, raw, fieldsToExtract), CatalogsOf(catalogOf));
        (r.Success? <==> blocks.Success?) &&
        (blocks.Failure? ==> r == Failure(blocks.error)) &&
        (r.Success? ==>
          fresh(r.value) && r.value.Valid() && r.value.rawdata == raw &&
          r.value.fieldsToExtract == fieldsToExtract && r.value.catalogs == CatalogsOf(catalogOf))
    {
      if source.Failure? {
        return Failure(source.error);
      }
      var raw := Head(source.value, HeaderSize);
      var reader := new ArriRawLegacyMetadataReader(raw, fieldsToExtract, CatalogsOf(catalogOf));
      DraftReader(raw, fieldsToExtract);
      var err := reader.AppendBlocks(catalogOf, Reader(Draft, raw, fieldsToExtract));
      if err.Some? {
        return Failure(err.value);
      }
      r := Success(reader);
    }

    /** `get_dictionary`: the readers' data merged in order, a later
        reader's value winning on a shared key. */
    method GetDictionary() returns (metadata: MetadataMap)
      ensures metadata == MergeAll(DataOf(objects))
    {
      metadata := map[];
      var i := 0;
      while i < |objects|
        invariant 0 <= i <= |objects|
        invariant metadata == MergeAll(DataOf(objects)[..i])
      {
        assert DataOf(objects)[..i + 1][..i] == DataOf(objects)[..i];
        metadata := metadata + objects[i].GetData();
        i := i + 1;
      }
      assert DataOf(objects)[..i] == DataOf(objects);
    }

    /** `list_fields`: every reader's catalog names, in reader order. */
    method ListFields() returns (fields: seq<string>)
      ensures fields == Flatten(FieldNamesOf(objects))
      ensures Valid() ==> fields == Flatten(NamesOf(catalogs))
    {
      fields := [];
      var i := 0;
      while i < |objects|
        invariant 0 <= i <= |objects|
        invariant fields == Flatten(FieldNamesOf(objects)[..i])
      {
        assert FieldNamesOf(objects)[..i + 1][..i] == FieldNamesOf(objects)[..i];
        fields := fields + objects[i].ListFields();
        i := i + 1;
      }
      assert FieldNamesOf(objects)[..i] == FieldNamesOf(objects);
      if Valid() {
        assert FieldNamesOf(objects) == NamesOf(catalogs);
      }
    }
  }
}
