/** The file table of a finished index, and the size that a row's storage tells. */
module IndexTable {
  import opened Results
  import opened ControlRows

  // Storage tags, element 0 of a storage
  const S_BLOB := 0
  const S_CHUNKS := 1
  const S_VZIP := 2
  const S_SPARSE := 3
  const S_PACK := 4
  const S_CDC := 5

  /** Column 6 of a row. `Absent` is `None`, `Blank` the empty list, `Bare` a list of a tag alone, `Owner`
      the list of a hard link, `Other` any other list. */
  datatype Storage =
    | Absent
    | Blank
    | Bare(tag: int)
    | Blob(ref: int)
    | Packed(blob: int, off: int, len: int)
    | Chunks(refs: seq<int>)
    | Cdc(parts: seq<(int, int)>)
    | Sparse(extents: seq<(int, int, seq<int>)>)
    | Vzip(recipe: int)
    | Owner(path: string, more: seq<int>)
    | Other(tag: int, rest: seq<int>)

  datatype IndexRow =
    IndexRow(rel: string, kind: int, mode: int, mtime: int, size: int, digest: Option<int>, storage: Storage)

  /** A recipe: the size of the file that it rebuilds, and everything else. */
  datatype RecipeRow = RecipeRow(size: int, rest: seq<int>)

  datatype Index = Index(
    files: seq<IndexRow>, blobs: seq<BlobRow>, recipes: seq<RecipeRow>, dictBlob: Option<int>, fsmeta: seq<int>,
    version: int, features: seq<string>)

  /** A list access in Python: negative indices count from the end. */
  function At<T>(s: seq<T>, i: int): Result<T> {
    if 0 <= i < |s| then Ok(s[i])
    else if -|s| <= i < 0 then Ok(s[|s| + i])
    else Raised(ShapeError)
  }

  function BlobSizes(refs: seq<int>, blobs: seq<BlobRow>): Result<int> {
    if refs == [] then Ok(0)
    else
      var init :- BlobSizes(refs[..|refs| - 1], blobs);
      var last :- At(blobs, refs[|refs| - 1]);
      Ok(init + last.usize)
  }

  function PartSizes(parts: seq<(int, int)>): int {
    if parts == [] then 0 else PartSizes(parts[..|parts| - 1]) + parts[|parts| - 1].0
  }

  predicate TellsSize(tag: int) {
    tag in {S_BLOB, S_PACK, S_CHUNKS, S_CDC, S_VZIP}
  }

  /** `_derived_size` of a row that is no directory and no hard link. */
  function DerivedSize(storage: Storage, blobs: seq<BlobRow>, recipes: seq<RecipeRow>): Result<Option<int>> {
    match storage
    case Absent => Ok(None)
    case Blank => Ok(None)
    case Bare(tag) => if TellsSize(tag) then Raised(ShapeError) else Ok(None)
    case Blob(ref) =>
      var b :- At(blobs, ref);
      Ok(Some(b.usize))
    case Packed(_, _, len) => Ok(Some(len))
    case Chunks(refs) =>
      var n :- BlobSizes(refs, blobs);
      Ok(Some(n))
    case Cdc(parts) => Ok(Some(PartSizes(parts)))
    case Sparse(_) => Ok(None)
    case Vzip(recipe) =>
      var r :- At(recipes, recipe);
      Ok(Some(r.size))
    case Owner(_, _) => Raised(ShapeError)
    case Other(tag, _) => if TellsSize(tag) then Raised(ShapeError) else Ok(None)
  }

  /** The storages whose rows keep a digest of their own. */
  predicate KeepsDigest(storage: Storage) {
    match storage
    case Chunks(_) => true
    case Cdc(_) => true
    case Sparse(_) => true
    case Bare(tag) => tag in {S_CHUNKS, S_CDC, S_SPARSE}
    case Other(tag, _) => tag in {S_CHUNKS, S_CDC, S_SPARSE}
    case _ => false
  }
}
