/** The packaged `ArriRawLegacyMetadataReader`: one header buffer and one
    allow-list shared by nine block readers, whose dictionaries it merges
    and whose catalog names it lists. The block catalogs are a parameter,
    one per block kind. */
module Aggregator {
  import opened Wrappers
  import opened Bytes
  import opened Metadata
  import opened DtoSpec
  import opened Dto
  import opened Merge

  /** The data each reader stored, in reader order. */
  function DataOf(objs: seq<BinaryFileDTO>): (ds: seq<MetadataMap>)
    reads set i | 0 <= i < |objs| :: objs[i]
    ensures |ds| == |objs|
    ensures forall i :: 0 <= i < |objs| ==> ds[i] == objs[i].data
  {
    seq(|objs|, i requires 0 <= i < |objs| reads set j | 0 <= j < |objs| :: objs[j] => objs[i].data)
  }

  /** Each reader's catalog names, in reader order. */
  function FieldNamesOf(objs: seq<BinaryFileDTO>): (ls: seq<seq<string>>)
    reads set i | 0 <= i < |objs| :: objs[i]
    ensures |ls| == |objs|
    ensures forall i :: 0 <= i < |objs| ==> ls[i] == Names(objs[i].fields)
  {
    seq(|objs|, i requires 0 <= i < |objs| reads set j | 0 <= j < |objs| :: objs[j] => Names(objs[i].fields))
  }

  /** One block reader, built over the header, and what the block
      reader function gives for its catalog. */
  method LoadBlock(raw: seq<Byte>, fieldsToExtract: Option<seq<string>>, catalog: Catalog,
                   ghost read: Catalog -> Result<MetadataMap, Error>)
    returns (block: Result<BinaryFileDTO, Error>)
    requires IsPackagedReader(read, raw, fieldsToExtract)
    ensures block.Failure? ==> read(catalog) == Failure(block.error)
    ensures block.Success? ==>
      fresh(block.value) && block.value.fields == catalog && read(catalog) == Success(block.value.data)
  {
    block := BinaryFileDTO.Load(raw, fieldsToExtract, catalog);
    assert read(catalog) == PackagedBlock(raw, fieldsToExtract, catalog);
  }

  class ArriRawLegacyMetadataReader {
    const rawdata: seq<Byte>
    const fieldsToExtract: Option<seq<string>>
    ghost const catalogs: seq<Catalog>
    var objects: seq<BinaryFileDTO>

    /** The readers are the nine blocks' readers over `rawdata`, in order. */
    ghost predicate Valid()
      reads this, set i | 0 <= i < |objects| :: objects[i]
    {
      |objects| == |catalogs| == |Blocks| &&
      (forall i :: 0 <= i < |objects| ==> objects[i].fields == catalogs[i]) &&
      AllBlocks(Reader(Packaged, rawdata, fieldsToExtract), catalogs) == Success(DataOf(objects))
    }

    constructor (rawdata: seq<Byte>, fieldsToExtract: Option<seq<string>>, ghost catalogs: seq<Catalog>,
                 objects: seq<BinaryFileDTO>)
      ensures this.rawdata == rawdata && this.fieldsToExtract == fieldsToExtract
      ensures this.catalogs == catalogs && this.objects == objects
    {
      this.rawdata := rawdata;
      this.fieldsToExtract := fieldsToExtract;
      this.catalogs := catalogs;
      this.objects := objects;
    }

    /** The list of the nine block readers over `raw`, built in block
        order; the first exception aborts. */
    static method LoadAll(raw: seq<Byte>, fieldsToExtract: Option<seq<string>>, catalogOf: BlockKind -> Catalog,
                          ghost read: Catalog -> Result<MetadataMap, Error>)
      returns (r: Result<seq<BinaryFileDTO>, Error>)
      requires IsPackagedReader(read, raw, fieldsToExtract)
      ensures var blocks := AllBlocks(read, CatalogsOf(catalogOf));
        (r.Success? <==> blocks.Success?) &&
        (r.Failure? ==> blocks == Failure(r.error)) &&
        (r.Success? ==>
          |r.value| == |Blocks| && blocks.value == DataOf(r.value) &&
          forall j :: 0 <= j < |Blocks| ==> r.value[j].fields == CatalogsOf(catalogOf)[j])
    {
      ghost var cats := CatalogsOf(catalogOf);
      ghost var datas: seq<MetadataMap> := [];
      var objs: seq<BinaryFileDTO> := [];
      var i := 0;
      while i < |Blocks|
        invariant 0 <= i <= |Blocks| && |objs| == i && |datas| == i
        invariant forall j :: 0 <= j < i ==> objs[j].fields == cats[j] && objs[j].data == datas[j]
        invariant forall j :: 0 <= j < i ==> read(cats[j]) == Success(datas[j])
      {
        var block := LoadBlock(raw, fieldsToExtract, catalogOf(Blocks[i]), read);
        if block.Failure? {
          AllBlocksFirstFailure(read, cats, i);
          return Failure(block.error);
        }
        objs := objs + [block.value];
        datas := datas + [block.value.data];
        i := i + 1;
      }
      AllBlocksAllRead(read, cats, datas);
      assert DataOf(objs) == datas;
      r := Success(objs);
    }

    /** `__init__`: an error opening the file is re-raised as it is and no
        reader is built; otherwise the first 4096 bytes are read once and
        the readers are built in block order over them, the first
        exception aborting. */
    static method Open(source: Result<seq<Byte>, Error>, fieldsToExtract: Option<seq<string>>,
                       catalogOf: BlockKind -> Catalog) returns (r: Result<ArriRawLegacyMetadataReader, Error>)
      ensures source.Failure? ==> r == Failure(source.error)
      ensures source.Success? ==>
        var raw := Head(source.value, HeaderSize);
        var blocks := AllBlocks(Reader(Packaged, raw, fieldsToExtract), CatalogsOf(catalogOf));
        (r.Success? <==> blocks.Success?) &&
        (blocks.Failure? ==> r == Failure(blocks.error)) &&
        (r.Success? ==>
          fresh(r.value) && r.value.Valid() && r.value.rawdata == raw &&
          r.value.fieldsToExtract == fieldsToExtract && r.value.catalogs == CatalogsOf(catalogOf))
    {
      if source.Failure? {
        return Failure(source.error);
      }
      var raw := Head(source.value, HeaderSize);
      PackagedReader(raw, fieldsToExtract);
      var objs := LoadAll(raw, fieldsToExtract, catalogOf, Reader(Packaged, raw, fieldsToExtract));
      if objs.Failure? {
        return Failure(objs.error);
      }
      ghost var datas := DataOf(objs.value);
      var reader := new ArriRawLegacyMetadataReader(raw, fieldsToExtract, CatalogsOf(catalogOf), objs.value);
      assert DataOf(reader.objects) == datas;
      r := Success(reader);
    }

    /** `_collect_metadata`: the readers' data merged in order, a later
        reader's value winning on a shared key. */
    method CollectMetadata() returns (metadata: MetadataMap)
      ensures metadata == MergeAll(DataOf(objects))
    {
      metadata := map[];
      var i := 0;
      while i < |objects|
        invariant 0 <= i <= |objects|
        invariant metadata == MergeAll(DataOf(objects)[..i])
      {
        assert DataOf(objects)[..i + 1][..i] == DataOf(objects)[..i];
        metadata := metadata + objects[i].GetData();
        i := i + 1;
      }
      assert DataOf(objects)[..i] == DataOf(objects);
    }

    /** `get_dictionary`. */
    method GetDictionary() returns (metadata: MetadataMap)
      ensures metadata == MergeAll(DataOf(objects))
    {
      metadata := CollectMetadata();
    }

    /** `list_fields`: every reader's catalog names, in reader order,
        whatever the allow-list, duplicates kept. */
    method ListFields() returns (fields: seq<string>)
      ensures fields == Flatten(FieldNamesOf(objects))
      ensures Valid() ==> fields == Flatten(NamesOf(catalogs))
    {
      fields := [];
      var i := 0;
      while i < |objects|
        invariant 0 <= i <= |objects|
        invariant fields == Flatten(FieldNamesOf(objects)[..i])
      {
        assert FieldNamesOf(objects)[..i + 1][..i] == FieldNamesOf(objects)[..i];
        fields := fields + objects[i].ListFields();
        i := i + 1;
      }
      assert FieldNamesOf(objects)[..i] == FieldNamesOf(objects);
      if Valid() {
        assert FieldNamesOf(objects) == NamesOf(catalogs);
      }
    }
  }

  /** `read_metadata`: a fresh reader's `get_dictionary`. */
  method ReadMetadata(source: Result<seq<Byte>, Error>, fieldsToExtract: Option<seq<string>>,
                      catalogOf: BlockKind -> Catalog) returns (r: Result<MetadataMap, Error>)
    ensures r == ReadMetadataSpec(Packaged, source, fieldsToExtract, CatalogsOf(catalogOf))
  {
    var reader := ArriRawLegacyMetadataReader.Open(source, fieldsToExtract, catalogOf);
    if reader.Failure? {
      return Failure(reader.error);
    }
    var metadata := reader.value.GetDictionary();
    return Success(metadata);
  }
}
