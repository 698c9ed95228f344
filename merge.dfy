/** What the two `ArriRawLegacyMetadataReader`s compute from the file's
    first 4096 bytes: the nine metadata blocks read in a fixed order over
    the same buffer and allow-list, their dictionaries merged with the
    later block winning, their catalog names concatenated. */
module Merge {
  import opened Wrappers
  import opened Bytes
  import opened Metadata
  import opened DtoSpec
  import opened LegacySpec

  /** The nine metadata blocks. */
  datatype BlockKind = Idi | Ici | Cdi | Ldi | Vfx | Cid | Sid | Fli | Nri

  /** The order in which both aggregators build their readers. */
  const Blocks: seq<BlockKind> := [Idi, Ici, Cdi, Ldi, Vfx, Cid, Sid, Fli, Nri]

  /** How many bytes the aggregators read from the file. */
  const HeaderSize: nat := 4096

  /** `f.read(n)` on a file holding `bs`: at most `n` bytes. */
  function Head(bs: seq<Byte>, n: nat): (r: seq<Byte>)
    ensures |r| <= n && |r| <= |bs|
    ensures |bs| <= n ==> r == bs
    ensures r == bs[..|r|]
    ensures |bs| >= n ==> |r| == n
  {
    if |bs| <= n then bs else bs[..n]
  }

  // ---------------------------------------------------------------------
  // Merging dictionaries.

  /** `metadata.update(d)` for each `d` in turn, from `{}`. */
  function MergeAll(ms: seq<MetadataMap>): MetadataMap
  {
    if ms == [] then map[] else MergeAll(ms[..|ms| - 1]) + ms[|ms| - 1]
  }

  /** A key is merged iff some dictionary has it. */
  lemma {:induction false} MergeAllKeys(ms: seq<MetadataMap>, k: string)
    ensures k in MergeAll(ms) <==> exists i :: 0 <= i < |ms| && k in ms[i]
  {
    if ms != [] {
      var init := ms[..|ms| - 1];
      MergeAllKeys(init, k);
      if k in MergeAll(init) {
        var i :| 0 <= i < |init| && k in init[i];
        assert k in ms[i];
      }
      if exists i :: 0 <= i < |ms| && k in ms[i] {
        var i :| 0 <= i < |ms| && k in ms[i];
        if i < |ms| - 1 {
          assert k in init[i];
        }
      }
    }
  }

  /** A merged key holds the value of the last dictionary that has it. */
  lemma {:induction false} MergeAllLast(ms: seq<MetadataMap>, k: string, i: nat)
    requires i < |ms| && k in ms[i]
    requires forall j :: i < j < |ms| ==> k !in ms[j]
    ensures k in MergeAll(ms) && MergeAll(ms)[k] == ms[i][k]
  {
    var init := ms[..|ms| - 1];
    if i < |ms| - 1 {
      assert init[i] == ms[i];
      forall j | i < j < |init| ensures k !in init[j] {
        assert init[j] == ms[j];
      }
      MergeAllLast(init, k, i);
    }
  }

  // ---------------------------------------------------------------------
  // Concatenating name lists.

  /** `fields.extend(l)` for each `l` in turn, from `[]`. */
  function Flatten(ls: seq<seq<string>>): (r: seq<string>)
  {
    if ls == [] then [] else Flatten(ls[..|ls| - 1]) + ls[|ls| - 1]
  }

  function TotalLength(ls: seq<seq<string>>): nat
  {
    if ls == [] then 0 else TotalLength(ls[..|ls| - 1]) + |ls[|ls| - 1]|
  }

  /** Nothing is dropped, duplicates included, and the lists follow one
      another: list `i` starts where the ones before it end. */
  lemma {:induction false} FlattenLayout(ls: seq<seq<string>>, i: nat, j: nat)
    requires i < |ls| && j < |ls[i]|
    ensures |Flatten(ls)| == TotalLength(ls)
    ensures TotalLength(ls[..i]) + j < |Flatten(ls)|
    ensures Flatten(ls)[TotalLength(ls[..i]) + j] == ls[i][j]
  {
    var init := ls[..|ls| - 1];
    FlattenLength(init);
    if i == |ls| - 1 {
      assert ls[..i] == init;
    } else {
      assert init[..i] == ls[..i] && init[i] == ls[i];
      FlattenLayout(init, i, j);
    }
  }

  lemma {:induction false} FlattenLength(ls: seq<seq<string>>)
    ensures |Flatten(ls)| == TotalLength(ls)
  {
    if ls != [] {
      FlattenLength(ls[..|ls| - 1]);
    }
  }

  /** The catalog names of each catalog. */
  function NamesOf(catalogs: seq<Catalog>): (r: seq<seq<string>>)
    ensures |r| == |catalogs|
    ensures forall i :: 0 <= i < |catalogs| ==> r[i] == Names(catalogs[i])
  {
    seq(|catalogs|, i requires 0 <= i < |catalogs| => Names(catalogs[i]))
  }

  // ---------------------------------------------------------------------
  // Reading the blocks.

  /** The catalogs of the nine blocks, in reader order. */
  function CatalogsOf(catalogOf: BlockKind -> Catalog): (cs: seq<Catalog>)
    ensures |cs| == |Blocks|
    ensures forall i :: 0 <= i < |Blocks| ==> cs[i] == catalogOf(Blocks[i])
  {
    seq(|Blocks|, i requires 0 <= i < |Blocks| => catalogOf(Blocks[i]))
  }

  /** The packaged engine (with the remap) or the earlier draft. */
  datatype Engine = Packaged | Draft

  /** One block reader of the packaged engine over `raw`: the byte order,
      then the extraction. */
  function PackagedBlock(raw: seq<Byte>, allow: Option<seq<string>>, catalog: Catalog)
    : Result<MetadataMap, Error>
  {
    var order :- DetectOrder(raw);
    Extract(raw, order.0, catalog, allow)
  }

  /** One block reader of the draft engine over `raw`. */
  function DraftBlock(raw: seq<Byte>, allow: Option<seq<string>>, catalog: Catalog)
    : Result<MetadataMap, Error>
  {
    var order :- DetectOrder(raw);
    LegacyExtract(raw, order.0, catalog, allow)
  }

  /** The block reader of one engine over one buffer and allow-list, as a
      function of the block's catalog. */
  function Reader(engine: Engine, raw: seq<Byte>, allow: Option<seq<string>>)
    : Catalog -> Result<MetadataMap, Error>
  {
    match engine
    case Packaged => c => PackagedBlock(raw, allow, c)
    case Draft => c => DraftBlock(raw, allow, c)
  }

  /** `read` is the packaged block reader over `raw` and `allow`. */
  ghost predicate IsPackagedReader(read: Catalog -> Result<MetadataMap, Error>, raw: seq<Byte>,
                                   allow: Option<seq<string>>)
  {
    forall c {:trigger PackagedBlock(raw, allow, c)} :: read(c) == PackagedBlock(raw, allow, c)
  }

  /** `read` is the draft block reader over `raw` and `allow`. */
  ghost predicate IsDraftReader(read: Catalog -> Result<MetadataMap, Error>, raw: seq<Byte>,
                                allow: Option<seq<string>>)
  {
    forall c {:trigger DraftBlock(raw, allow, c)} :: read(c) == DraftBlock(raw, allow, c)
  }

  lemma PackagedReader(raw: seq<Byte>, allow: Option<seq<string>>)
    ensures IsPackagedReader(Reader(Packaged, raw, allow), raw, allow)
  {
  }

  lemma DraftReader(raw: seq<Byte>, allow: Option<seq<string>>)
    ensures IsDraftReader(Reader(Draft, raw, allow), raw, allow)
  {
  }

  /** The readers in order; the first exception aborts the whole. */
  function AllBlocks(read: Catalog -> Result<MetadataMap, Error>, catalogs: seq<Catalog>)
    : (r: Result<seq<MetadataMap>, Error>)
    ensures r.Success? ==> |r.value| == |catalogs|
  {
    if catalogs == [] then Success([])
    else
      var init :- AllBlocks(read, catalogs[..|catalogs| - 1]);
      var last :- read(catalogs[|catalogs| - 1]);
      Success(init + [last])
  }

  /** The blocks all succeed iff each one does, and then block `i`'s data
      is what its catalog gives. */
  lemma {:induction false} AllBlocksEach(read: Catalog -> Result<MetadataMap, Error>, catalogs: seq<Catalog>)
    ensures AllBlocks(read, catalogs).Success? <==>
      forall i :: 0 <= i < |catalogs| ==> read(catalogs[i]).Success?
    ensures AllBlocks(read, catalogs).Success? ==>
      forall i :: 0 <= i < |catalogs| ==> AllBlocks(read, catalogs).value[i] == read(catalogs[i]).value
  {
    if catalogs != [] {
      var n := |catalogs|;
      var init := catalogs[..n - 1];
      AllBlocksEach(read, init);
      var a := AllBlocks(read, init);
      var b := read(catalogs[n - 1]);
      if a.Failure? {
        var i :| 0 <= i < |init| && read(init[i]).Failure?;
        assert init[i] == catalogs[i];
      } else if b.Success? {
        var all := a.value + [b.value];
        assert AllBlocks(read, catalogs) == Success(all);
        forall i | 0 <= i < n
          ensures read(catalogs[i]).Success?
          ensures all[i] == read(catalogs[i]).value
        {
          if i < n - 1 {
            assert init[i] == catalogs[i];
          }
        }
      }
    }
  }

  /** When the first block raises, so do all of them together, with that
      exception. */
  lemma {:induction false} AllBlocksFirstError(read: Catalog -> Result<MetadataMap, Error>,
                                               catalogs: seq<Catalog>, e: Error)
    requires catalogs != [] && read(catalogs[0]) == Failure(e)
    ensures AllBlocks(read, catalogs) == Failure(e)
  {
    if |catalogs| > 1 {
      var init := catalogs[..|catalogs| - 1];
      assert init[0] == catalogs[0];
      AllBlocksFirstError(read, init, e);
    }
  }

  /** A header without the byte-order word fails every block with
      `struct.error`, whatever the catalogs. */
  lemma ShortHeaderFails(engine: Engine, raw: seq<Byte>, allow: Option<seq<string>>, catalogs: seq<Catalog>)
    requires |raw| < 8 && catalogs != []
    ensures AllBlocks(Reader(engine, raw, allow), catalogs) == Failure(StructError)
  {
    DetectOrderRule(raw);
    assert Reader(engine, raw, allow)(catalogs[0]) == Failure(StructError);
    AllBlocksFirstError(Reader(engine, raw, allow), catalogs, StructError);
  }

  /** One more reader after a prefix of them. */
  lemma AllBlocksSnoc(read: Catalog -> Result<MetadataMap, Error>, catalogs: seq<Catalog>, k: nat)
    requires k < |catalogs|
    ensures AllBlocks(read, catalogs[..k + 1]) ==
      match AllBlocks(read, catalogs[..k])
      case Failure(e) => Failure(e)
      case Success(init) =>
        match read(catalogs[k])
        case Failure(e) => Failure(e)
        case Success(last) => Success(init + [last])
  {
    assert catalogs[..k + 1][..k] == catalogs[..k];
  }

  /** Once a prefix of the readers fails, the whole does, with that
      exception. */
  lemma {:induction false} AllBlocksPrefixFails(read: Catalog -> Result<MetadataMap, Error>,
                                                catalogs: seq<Catalog>, k: nat)
    requires k <= |catalogs|
    requires AllBlocks(read, catalogs[..k]).Failure?
    ensures AllBlocks(read, catalogs) == AllBlocks(read, catalogs[..k])
    decreases |catalogs| - k
  {
    if k < |catalogs| {
      AllBlocksSnoc(read, catalogs, k);
      AllBlocksPrefixFails(read, catalogs, k + 1);
    } else {
      assert catalogs[..k] == catalogs;
    }
  }

  /** When the blocks before `k` are read and block `k` raises, the whole
      raises with block `k`'s exception. */
  lemma AllBlocksFirstFailure(read: Catalog -> Result<MetadataMap, Error>, catalogs: seq<Catalog>, k: nat)
    requires k < |catalogs|
    requires forall j :: 0 <= j < k ==> read(catalogs[j]).Success?
    requires read(catalogs[k]).Failure?
    ensures AllBlocks(read, catalogs) == Failure(read(catalogs[k]).error)
  {
    var prefix := catalogs[..k];
    assert forall j :: 0 <= j < k ==> prefix[j] == catalogs[j];
    AllBlocksEach(read, prefix);
    AllBlocksSnoc(read, catalogs, k);
    AllBlocksPrefixFails(read, catalogs, k + 1);
  }

  /** When every block is read, the whole is their data in order. */
  lemma AllBlocksAllRead(read: Catalog -> Result<MetadataMap, Error>, catalogs: seq<Catalog>, ds: seq<MetadataMap>)
    requires |ds| == |catalogs|
    requires forall j :: 0 <= j < |catalogs| ==> read(catalogs[j]) == Success(ds[j])
    ensures AllBlocks(read, catalogs) == Success(ds)
  {
    AllBlocksEach(read, catalogs);
    var all := AllBlocks(read, catalogs).value;
    assert |all| == |ds|;
    assert forall j :: 0 <= j < |catalogs| ==> all[j] == ds[j];
    assert all == ds;
  }

  /** `read_metadata(path, allow)` on a file whose content is `source`
      (or whose opening raised): the merged data of the nine blocks. */
  function ReadMetadataSpec(engine: Engine, source: Result<seq<Byte>, Error>, allow: Option<seq<string>>,
                            catalogs: seq<Catalog>): Result<MetadataMap, Error>
  {
    var bytes :- source;
    var blocks :- AllBlocks(Reader(engine, Head(bytes, HeaderSize), allow), catalogs);
    Success(MergeAll(blocks))
  }

  /** Bytes past the first 4096 play no part. */
  lemma ReadMetadataHeaderOnly(engine: Engine, a: seq<Byte>, b: seq<Byte>, allow: Option<seq<string>>,
                               catalogs: seq<Catalog>)
    requires |a| >= HeaderSize && |b| >= HeaderSize && a[..HeaderSize] == b[..HeaderSize]
    ensures ReadMetadataSpec(engine, Success(a), allow, catalogs) == ReadMetadataSpec(engine, Success(b), allow, catalogs)
  {
    assert Head(a, HeaderSize) == Head(b, HeaderSize);
  }
}
